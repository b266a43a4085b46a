/** encryption.go: the NTLM-protected message codec, which splits on the boundary instead of cutting around it. */
module NtlmCodec {

  import opened Wrappers
  import opened Bytes
  import opened Multipart

  const MIME_BOUNDARY: bytes := "--Encrypted Boundary"
  const SEPARATOR: bytes := "--Encrypted Boundary\r\n"
  const END: bytes := "--Encrypted Boundary--\r\n"
  const LENGTH: bytes := "Length="

  /** What the unseen security session's Wrap returned. */
  datatype Wrapped = Wrapped(sealed: bytes, signature: bytes)

  /** Unwrap as a function of how many messages the session has unwrapped before. */
  type Session = (nat, bytes, bytes) -> Option<bytes>

  /** A slice or index expression of the Go code that leaves its bounds is a result of its own. */
  datatype Outcome = Decrypted(message: bytes) | Rejected | OutOfRange

  // ----- printing -----

  /** buildNTLMMessage: without a session it returns no bytes and no error. */
  method BuildNtlmMessage(session: Option<bytes -> Option<Wrapped>>, message: bytes) returns (r: Result<bytes>)
    ensures session.None? ==> r == Ok([])
    ensures session.Some? && session.value(message).None? ==> r.Err?
    ensures session.Some? && session.value(message).Some? ==>
              var w := session.value(message).value;
              r == Ok(Stream(w.signature, w.sealed))
  {
    if session.None? {
      return Ok([]);
    }
    var wrapped := session.value(message);
    if wrapped.None? {
      return Err("wrap");
    }
    var buf: bytes := Le32(|wrapped.value.signature|);
    buf := buf + wrapped.value.signature;
    buf := buf + wrapped.value.sealed;
    return Ok(buf);
  }

  function StreamOf(wrapped: Option<Wrapped>): bytes {
    if wrapped.None? then [] else Stream(wrapped.value.signature, wrapped.value.sealed)
  }

  /** encryptMessage drops the error of buildMessage: without a wrapped message the stream is empty. */
  function EncryptMessage(message: bytes, wrapped: Option<Wrapped>): bytes {
    Flatten([
      MIME_BOUNDARY,
      CRLF,
      TYPE_HEADER + PROTOCOL + CRLF,
      CONTENT_HEADER + OriginalContent(SOAP_TYPE, Decimal(|message|)) + CRLF,
      MIME_BOUNDARY,
      CRLF,
      OCTET_LINE,
      StreamOf(wrapped)])
  }

  datatype Message = Message(plain: bytes, wrapped: Option<Wrapped>)

  /** The request body: the parts one after the other, then the end marker. */
  function Body(messages: seq<Message>): bytes {
    if |messages| == 0 then MIME_BOUNDARY + TERMINAL
    else EncryptMessage(messages[0].plain, messages[0].wrapped) + Body(messages[1..])
  }

  function Plain(messages: seq<Message>): bytes {
    if |messages| == 0 then [] else messages[0].plain + Plain(messages[1..])
  }

  // ----- parsing -----

  function NonEmpty(parts: seq<bytes>): seq<bytes> {
    if |parts| == 0 then []
    else if |parts[0]| != 0 then [parts[0]] + NonEmpty(parts[1..])
    else NonEmpty(parts[1..])
  }

  method DeleteEmpty(parts: seq<bytes>) returns (r: seq<bytes>)
    ensures r == NonEmpty(parts)
  {
    r := [];
    for i := 0 to |parts|
      invariant NonEmpty(parts) == r + NonEmpty(parts[i..])
    {
      assert parts[i..][1..] == parts[i + 1..];
      if |parts[i]| != 0 {
        r := r + [parts[i]];
      }
    }
  }

  /** decryptNtlmMessage. */
  function DecryptStream(data: bytes, call: nat, session: Session): Outcome {
    if |data| < 4 then OutOfRange
    else
      var signatureLength := FromLe32(data[..4]);
      if signatureLength + 4 > |data| then OutOfRange
      else
        var message := session(call, data[signatureLength + 4..], data[4..signatureLength + 4]);
        if message.None? then Rejected else Decrypted(message.value)
  }

  /** The text after the first "Length=" of a part header, up to and including a second one. */
  function LengthText(header: bytes): Option<bytes> {
    var fields := Split(header, LENGTH);
    if |fields| < 2 then None
    else if |fields| == 2 then Some(fields[1])
    else Some(fields[1] + LENGTH)
  }

  function StripEnd(payload: bytes): bytes {
    if HasSuffix(payload, END) then payload[..|payload| - |MIME_BOUNDARY| - 4] else payload
  }

  /** One turn of the loop of decryptResponse. */
  function DecryptPair(header: bytes, payload: bytes, call: nat, session: Session): Outcome {
    var text := LengthText(header);
    if text.None? then OutOfRange
    else
      var (expected, ok) := Atoi(TrimSpace(text.value));
      if !ok then Rejected
      else
        var message := DecryptStream(RemoveAll(StripEnd(payload), OCTET_LINE), call, session);
        if message.Decrypted? && |message.message| != expected then Rejected else message
  }

  function Prepend(message: bytes, rest: Outcome): Outcome {
    if rest.Decrypted? then Decrypted(message + rest.message) else rest
  }

  /** The pairs of parts from the `call`-th on. */
  function DecryptPairs(parts: seq<bytes>, call: nat, session: Session): Outcome {
    if |parts| == 0 then Decrypted([])
    else if |parts| == 1 then OutOfRange
    else
      var first := DecryptPair(parts[0], parts[1], call, session);
      if !first.Decrypted? then first else Prepend(first.message, DecryptPairs(parts[2..], call + 1, session))
  }

  lemma PrependTwice(first: bytes, second: bytes, rest: Outcome)
    ensures Prepend(first, Prepend(second, rest)) == Prepend(first + second, rest)
  {
    if rest.Decrypted? {
      assert first + (second + rest.message) == first + second + rest.message;
    }
  }

  /** One turn of the loop, after the parts before the `i`-th have given `message`. */
  lemma PairsTurn(message: bytes, parts: seq<bytes>, i: nat, call: nat, session: Session)
    requires i <= |parts|
    ensures Prepend(message, DecryptPairs(parts[i..], call, session))
         == (if i == |parts| then Decrypted(message)
             else if i + 1 == |parts| then OutOfRange
             else
               var first := DecryptPair(parts[i], parts[i + 1], call, session);
               if !first.Decrypted? then first
               else Prepend(message + first.message, DecryptPairs(parts[i + 2..], call + 1, session)))
  {
    var rest := parts[i..];
    if i == |parts| {
      assert message + [] == message;
    } else if i + 1 < |parts| {
      assert rest[0] == parts[i] && rest[1] == parts[i + 1] && rest[2..] == parts[i + 2..];
      var first := DecryptPair(parts[i], parts[i + 1], call, session);
      if first.Decrypted? {
        PrependTwice(message, first.message, DecryptPairs(parts[i + 2..], call + 1, session));
      }
    }
  }

  function Decrypt(body: bytes, session: Session): Outcome {
    DecryptPairs(NonEmpty(Split(body, SEPARATOR)), 0, session)
  }

  /** The loop of decryptResponse over the parts. */
  method DecryptParts(parts: seq<bytes>, session: Session) returns (r: Outcome)
    ensures r == DecryptPairs(parts, 0, session)
  {
    var message: bytes := [];
    var i, call := 0, 0;
    ghost var target := Prepend(message, DecryptPairs(parts[i..], call, session));
    PrependNothing(parts, session);
    while i < |parts|
      invariant 0 <= i <= |parts|
      invariant target == Prepend(message, DecryptPairs(parts[i..], call, session))
    {
      PairsTurn(message, parts, i, call, session);
      if i + 1 >= |parts| {
        return OutOfRange;
      }
      var decrypted := DecryptPair(parts[i], parts[i + 1], call, session);
      if !decrypted.Decrypted? {
        return decrypted;
      }
      message := message + decrypted.message;
      i, call := i + 2, call + 1;
    }
    PairsTurn(message, parts, i, call, session);
    return Decrypted(message);
  }

  lemma PrependNothing(parts: seq<bytes>, session: Session)
    ensures Prepend([], DecryptPairs(parts[0..], 0, session)) == DecryptPairs(parts, 0, session)
  {
    assert parts[0..] == parts;
    var rest := DecryptPairs(parts, 0, session);
    assert rest.Decrypted? ==> [] + rest.message == rest.message;
  }

  method DecryptResponse(body: bytes, session: Session) returns (r: Outcome)
    ensures r == Decrypt(body, session)
  {
    var parts := DeleteEmpty(Split(body, SEPARATOR));
    r := DecryptParts(parts, session);
  }
}
