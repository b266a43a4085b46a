/** The two codecs print the same layout, and their parsers, which work differently, read the same message. */
module Agreement {

  import opened Wrappers
  import opened Bytes
  import opened Multipart
  import opened NtlmCodec
  import opened NtlmCodecProofs
  import K = KerberosMessage
  import P = KerberosMessageProofs

  /** What a session makes of one extracted message. */
  function Verdict(message: Option<bytes>, length: nat): Outcome {
    if message.None? || |message.value| != length then Rejected else Decrypted(message.value)
  }

  // ----- the header part as the splitting parser sees it -----

  lemma LineEndsWithoutY(protocol: bytes)
    requires EqualFold(protocol, PROTOCOL)
    ensures |protocol| > 0 && protocol[|protocol| - 1] != 'y'
  {
    ProtocolEndsInD();
    FoldEndsOtherwise(protocol, PROTOCOL, 'y');
  }

  lemma ProtocolEndsInD()
    ensures |PROTOCOL| > 0
    ensures var last := Lower(PROTOCOL[|PROTOCOL| - 1]); last != 's' && last != 'k' && last != Lower('y')
  {
  }

  lemma SeparatorEndsInY()
    ensures |SEPARATOR| == 22 && SEPARATOR[19] == 'y' && SEPARATOR[20..] == CRLF
  {
  }

  /** Two lines that do not end in `y` hold no separator. */
  lemma TwoLinesAreFree(line1: bytes, line2: bytes, tail: bytes)
    requires !Occurs(line1, CRLF) && !Occurs(line2, CRLF) && (tail == [] || tail == CRLF)
    requires |line1| > 0 && |line2| > 0 && line1[|line1| - 1] != 'y' && line2[|line2| - 1] != 'y'
    ensures !Occurs(line1 + CRLF + line2 + tail, SEPARATOR)
  {
    SeparatorEndsInY();
    var s := line1 + CRLF + line2 + tail;
    forall i ensures !OccursAt(s, SEPARATOR, i) {
      if 0 <= i && i + 22 <= |s| {
        var found := s[i..i + 22];
        var q := i + 20;
        assert found[19] == s[q - 1];
        assert found[20..] == s[q..q + 2];
        LineBreaksOf(line1, line2, tail, q);
        assert q == |line1| ==> s[q - 1] == line1[|line1| - 1];
        assert q == |line1| + 2 + |line2| ==> s[q - 1] == line2[|line2| - 1];
      }
    }
  }

  lemma LineBreaksOf(line1: bytes, line2: bytes, tail: bytes, q: int)
    requires !Occurs(line1, CRLF) && !Occurs(line2, CRLF) && (tail == [] || tail == CRLF)
    ensures OccursAt(line1 + CRLF + line2 + tail, CRLF, q) ==> q == |line1| || q == |line1| + 2 + |line2|
  {
    var s := line1 + CRLF + line2 + tail;
    if OccursAt(s, CRLF, q) {
      assert s == line1 + CRLF + (line2 + tail);
      OccurrenceAfter(line1, CRLF, line2 + tail, q);
      var r := q - |line1| - 2;
      if tail == [] {
        assert line2 + tail == line2;
      } else if r >= 0 {
        var empty: bytes := [];
        assert line2 + tail == line2 + CRLF + empty;
        OccurrenceAfter(line2, CRLF, empty, r);
      }
    }
  }

  lemma HeadersHaveNoEquals()
    ensures forall i :: 0 <= i < |TYPE_HEADER| ==> TYPE_HEADER[i] != '='
    ensures forall i :: 0 <= i < |CONTENT_HEADER| ==> CONTENT_HEADER[i] != '='
    ensures forall i :: 0 <= i < |PROTOCOL| ==> PROTOCOL[i] != '='
  {
  }

  lemma LengthBytes()
    ensures |LENGTH| == 7 && LENGTH[6] == '=' && LENGTH[5] == 'h' && LENGTH[0] == 'L' && LastUnique(LENGTH)
    ensures forall k :: 0 <= k < |LENGTH| ==> LENGTH[k] != ';'
  {
  }

  lemma TypePrefixBytes()
    ensures |TYPE_PREFIX| == 5 && TYPE_PREFIX[4] == '=' && TYPE_PREFIX[3] == 'e'
    ensures forall k :: 0 <= k < 4 ==> TYPE_PREFIX[k] != '='
  {
  }

  /** A text whose only `=` is its last byte, after an `e`, does not hold "Length=". */
  lemma OneEqualsIsFree(s: bytes)
    requires |s| >= 2 && s[|s| - 1] == '=' && s[|s| - 2] == 'e'
    requires forall k :: 0 <= k < |s| - 1 ==> s[k] != '='
    ensures !Occurs(s, LENGTH)
  {
    LengthBytes();
    forall i ensures !OccursAt(s, LENGTH, i) {
      if 0 <= i && i + 7 <= |s| {
        assert s[i..i + 7][6] == s[i + 6] && s[i..i + 7][5] == s[i + 5];
      }
    }
  }

  /** Everything before the media type of an accepted header. */
  function HeadBeforeType(protocol: bytes): bytes {
    TYPE_HEADER + protocol + CRLF + CONTENT_HEADER + TYPE_PREFIX
  }

  lemma HeadIsFree(protocol: bytes)
    requires EqualFold(protocol, PROTOCOL)
    ensures !Occurs(HeadBeforeType(protocol), LENGTH)
    ensures HeadBeforeType(protocol)[|HeadBeforeType(protocol)| - 1] == '='
  {
    HeadersHaveNoEquals();
    EqualFoldLacks(protocol, PROTOCOL, '=');
    TypePrefixBytes();
    LastEquals(TYPE_HEADER + protocol + CRLF + CONTENT_HEADER, TYPE_PREFIX);
    OneEqualsIsFree(HeadBeforeType(protocol));
  }

  lemma LastEquals(text: bytes, prefix: bytes)
    requires forall k :: 0 <= k < |text| ==> text[k] != '='
    requires |prefix| == 5 && prefix[4] == '=' && prefix[3] == 'e' && forall k :: 0 <= k < 4 ==> prefix[k] != '='
    ensures (var s := text + prefix;
             s[|s| - 1] == '=' && s[|s| - 2] == 'e' && forall k :: 0 <= k < |s| - 1 ==> s[k] != '=')
  {
  }

  /** Everything before the length of an accepted header. */
  function BeforeLength(protocol: bytes, contentType: bytes): bytes {
    TYPE_HEADER + protocol + CRLF + CONTENT_HEADER + TYPE_PREFIX + contentType + ";"
  }

  lemma BeforeLengthIsFree(protocol: bytes, contentType: bytes)
    requires EqualFold(protocol, PROTOCOL) && !Occurs(contentType, LENGTH)
    ensures !Occurs(BeforeLength(protocol, contentType), LENGTH)
  {
    HeadIsFree(protocol);
    FreeAfterEquals(HeadBeforeType(protocol), contentType);
    assert BeforeLength(protocol, contentType) == HeadBeforeType(protocol) + (contentType + ";");
  }

  lemma FreeAfterEquals(head: bytes, contentType: bytes)
    requires |head| > 0 && head[|head| - 1] == '=' && !Occurs(head, LENGTH) && !Occurs(contentType, LENGTH)
    ensures !Occurs(head + (contentType + ";"), LENGTH)
  {
    LengthBytes();
    if Occurs(head + (contentType + ";"), LENGTH) {
      var i :| OccursAt(head + (contentType + ";"), LENGTH, i);
      OccursAfterLast(head, contentType + ";", LENGTH, i);
      BeforeSemicolon(contentType, i - |head|);
    }
  }

  lemma BeforeSemicolon(contentType: bytes, i: int)
    ensures OccursAt(contentType + ";", LENGTH, i) ==> OccursAt(contentType, LENGTH, i)
  {
    LengthBytes();
    if OccursAt(contentType + ";", LENGTH, i) {
      var s := contentType + ";";
      OccursBefore(contentType, ";", LENGTH, i);
      assert s[i + 6] == s[i..i + 7][6] == '=';
    }
  }

  /** The length that the splitting parser reads from an accepted header. */
  lemma AcceptedLength(protocol: bytes, contentType: bytes, digits: bytes, tail: bytes, n: nat)
    requires EqualFold(protocol, PROTOCOL) && !Occurs(contentType, LENGTH)
    requires ParseUint63(digits) == Some(n) && (tail == [] || tail == CRLF)
    ensures var header := TYPE_HEADER + protocol + CRLF
                          + (CONTENT_HEADER + OriginalContent(contentType, digits)) + tail;
            && LengthText(header).Some?
            && Atoi(TrimSpace(LengthText(header).value)) == (n, true)
  {
    var header := TYPE_HEADER + protocol + CRLF + (CONTENT_HEADER + OriginalContent(contentType, digits)) + tail;
    var text := digits + tail;
    LengthTagSpelled();
    HeaderAssoc(TYPE_HEADER, protocol, CRLF, CONTENT_HEADER, TYPE_PREFIX, contentType, ";", LENGTH, digits, tail);
    assert header == BeforeLength(protocol, contentType) + LENGTH + text;
    BeforeLengthIsFree(protocol, contentType);
    DigitsHaveNoLength(digits, tail);
    LengthTextOf(BeforeLength(protocol, contentType), text);
    TrimTail(digits, tail);
    AtoiDigits(digits, n);
  }

  lemma DigitsHaveNoLength(digits: bytes, tail: bytes)
    requires AllDigits(digits) && (tail == [] || tail == CRLF)
    ensures !Occurs(digits + tail, LENGTH)
  {
    LengthBytes();
    assert CRLF[0] == '\r' && CRLF[1] == '\n';
    NoByteIsFree(digits + tail, LENGTH, 0);
  }

  lemma AtoiDigits(digits: bytes, n: nat)
    requires ParseUint63(digits) == Some(n)
    ensures Atoi(digits) == (n, true)
  {
    assert IsDigit(digits[0]);
  }

  lemma LengthTextOf(before: bytes, text: bytes)
    requires !Occurs(before, LENGTH) && !Occurs(text, LENGTH)
    ensures LengthText(before + LENGTH + text) == Some(text)
  {
    LengthBytes();
    SplitAfterFree(before, LENGTH, text);
    SplitFree(text, LENGTH);
  }

  lemma HeaderAssoc(a: bytes, b: bytes, c: bytes, d: bytes, e: bytes, f: bytes, g: bytes, h: bytes, n: bytes, t: bytes)
    ensures a + b + c + (d + (e + f + (g + h) + n)) + t == a + b + c + d + e + f + g + h + (n + t)
  {
  }

  lemma TrimTail(digits: bytes, tail: bytes)
    requires |digits| > 0 && AllDigits(digits) && (tail == [] || tail == CRLF)
    ensures TrimSpace(digits + tail) == digits
  {
    if tail == [] {
      assert digits + tail == digits;
      TrimLeftDigits(digits, tail);
      TrimRightDigits(digits);
    } else {
      TrimDigits(digits);
    }
  }

  // ----- agreement -----

  /** The splitting parser finds the header part and the payload part of a one-part body. */
  lemma OnePartSplit(header: bytes, stream: bytes)
    requires |header| > 0 && !Occurs(header, SEPARATOR) && !Occurs(stream, SEPARATOR)
    ensures NonEmpty(Split(SEPARATOR + (header + SEPARATOR + (OCTET_LINE + stream + END)), SEPARATOR))
         == [header, OCTET_LINE + stream + END]
  {
    var payload := OCTET_LINE + stream + END;
    LeadingSeparator(header + SEPARATOR + payload);
    DelimitersUnique();
    PayloadIsFree(stream);
    LastPayloadIsFree(OCTET_LINE + stream);
    SplitAfterFree(header, SEPARATOR, payload);
    SplitFree(payload, SEPARATOR);
    NonEmptyCons(header, [payload]);
    NonEmptyCons(payload, []);
    assert [payload] + [] == [payload];
  }

  lemma OnePartVerdict(header: bytes, signature: bytes, sealed: bytes, n: nat, session: Session)
    requires |signature| < TWO32 && !Occurs(Stream(signature, sealed), OCTET_LINE)
    requires LengthText(header).Some? && Atoi(TrimSpace(LengthText(header).value)) == (n, true)
    ensures DecryptPairs([header, OCTET_LINE + Stream(signature, sealed) + END], 0, session)
         == Verdict(session(0, sealed, signature), n)
  {
    var payload := OCTET_LINE + Stream(signature, sealed) + END;
    LastPayloadData(Stream(signature, sealed));
    StreamVerdict(signature, sealed, 0, session);
    PairVerdict(header, payload, Stream(signature, sealed), session(0, sealed, signature), n, session);
    assert [header, payload] == [header, payload] + [];
    PairStep(header, payload, [], 0, session);
  }

  lemma LastPayloadData(stream: bytes)
    requires !Occurs(stream, OCTET_LINE)
    ensures RemoveAll(StripEnd(OCTET_LINE + stream + END), OCTET_LINE) == stream
  {
    StrippedLast(stream);
    PayloadData(stream);
    RemoveAllLength(stream, OCTET_LINE);
  }

  lemma PairVerdict(header: bytes, payload: bytes, stream: bytes, message: Option<bytes>, n: nat, session: Session)
    requires LengthText(header).Some? && Atoi(TrimSpace(LengthText(header).value)) == (n, true)
    requires RemoveAll(StripEnd(payload), OCTET_LINE) == stream
    requires DecryptStream(stream, 0, session) == if message.None? then Rejected else Decrypted(message.value)
    ensures DecryptPair(header, payload, 0, session) == Verdict(message, n)
  {
  }

  lemma BodyLayout(marker: bytes, line1: bytes, line2: bytes, tail: bytes, line: bytes, stream: bytes, terminal: bytes)
    ensures ThreeLines(marker, line1, line2) + tail + (marker + CRLF + line) + stream + (marker + terminal)
         == (marker + CRLF) + ((line1 + CRLF + line2 + tail) + (marker + CRLF) + (line + stream + (marker + terminal)))
  {
  }

  /** On every body that the Kerberos parser accepts over the fixed boundary, whose media type does not contain
      "Length=" and whose stream does not contain a delimiter, the NTLM parser hands any session the same payload and
      the same header, and compares against the same length. */
  lemma ParsersAgree(framer: K.Framer, mime: K.MimeParser, body: bytes, metadata: bytes, envelope: K.Envelope,
                     protocol: bytes, contentType: bytes, digits: bytes, tail: bytes, session: Session)
    requires P.BodyForm(framer, mime, BOUNDARY, body, metadata, envelope)
    requires P.MetadataFields(mime, Marker(BOUNDARY), framer.maxPlaintextSize, metadata, envelope.length,
                              protocol, contentType, digits, tail)
    requires !Occurs(contentType, LENGTH)
    requires !Occurs(Stream(envelope.header, envelope.payload), SEPARATOR)
    requires !Occurs(Stream(envelope.header, envelope.payload), OCTET_LINE)
    ensures K.Extract(framer, mime, BOUNDARY, body) == Ok(envelope)
    ensures Decrypt(body, session) == Verdict(session(0, envelope.payload, envelope.header), envelope.length)
  {
    var marker := Marker(BOUNDARY);
    var line1, line2 := TYPE_HEADER + protocol, CONTENT_HEADER + OriginalContent(contentType, digits);
    var stream := Stream(envelope.header, envelope.payload);
    var header := line1 + CRLF + line2 + tail;
    BoundaryIsValid();
    P.ExtractComplete(framer, mime, BOUNDARY, body, metadata, envelope);
    P.LinesAreFree(BOUNDARY, protocol);
    P.ContentLineIsFree(contentType, digits);
    LineEndsWithoutY(protocol);
    assert line1[|line1| - 1] == protocol[|protocol| - 1];
    assert line2[|line2| - 1] == digits[|digits| - 1] && IsDigit(digits[|digits| - 1]);
    TwoLinesAreFree(line1, line2, tail);
    EndSpelled();
    BodyLayout(marker, line1, line2, tail, OCTET_LINE, stream, TERMINAL);
    OnePartSplit(header, stream);
    AcceptedLength(protocol, contentType, digits, tail, envelope.length);
    OnePartVerdict(header, envelope.header, envelope.payload, envelope.length, session);
  }

  /** The text before the first search pattern: the metadata of a body that the Kerberos parser accepts. */
  function MetadataOf(body: bytes): bytes {
    var end := Index(body, K.SearchPattern(Marker(BOUNDARY)));
    if end < 0 then body else body[..end]
  }

  ghost predicate OccursOnce(s: bytes, p: bytes) {
    forall i, j :: OccursAt(s, p, i) && OccursAt(s, p, j) ==> i == j
  }

  /** A tag in front of another one occurs twice. */
  lemma SecondTag(before: bytes, text: bytes, between: bytes, tag: bytes, after: bytes)
    requires |tag| > 0 && OccursOnce(before + text + between + tag + after, tag)
    ensures !Occurs(text, tag)
  {
    var s := before + text + between + tag + after;
    var last := |before + text + between|;
    assert OccursAt(s, tag, last);
    forall i ensures !OccursAt(text, tag, i) {
      if 0 <= i && i + |tag| <= |text| {
        SliceOfTail(before, text, i, |tag|);
        SliceOfHead(before + text, between + tag + after, |before| + i, |tag|);
        assert s == before + text + (between + tag + after);
        assert OccursAt(text, tag, i) ==> OccursAt(s, tag, |before| + i);
      }
    }
  }

  lemma OneLengthInMetadata(marker: bytes, protocol: bytes, contentType: bytes, digits: bytes, tail: bytes)
    requires OccursOnce(Metadata(marker, protocol, contentType, digits) + tail, LENGTH)
    ensures !Occurs(contentType, LENGTH)
  {
    var before := marker + CRLF + (TYPE_HEADER + protocol) + CRLF + CONTENT_HEADER + TYPE_PREFIX;
    LengthTagSpelled();
    MetadataAround(marker, TYPE_HEADER + protocol, CONTENT_HEADER, TYPE_PREFIX, contentType, [';'], LENGTH,
                   digits, tail);
    LengthIsNotEmpty();
    SecondTag(before, contentType, [';'], LENGTH, digits + tail);
  }

  lemma LengthIsNotEmpty()
    ensures |LENGTH| > 0
  {
  }

  lemma MetadataAround(marker: bytes, line1: bytes, name: bytes, prefix: bytes, contentType: bytes, between: bytes,
                       tag: bytes, digits: bytes, tail: bytes)
    ensures ThreeLines(marker, line1, name + (prefix + contentType + (between + tag) + digits)) + tail
         == (marker + CRLF + line1 + CRLF + name + prefix) + contentType + between + tag + (digits + tail)
  {
  }

  /** The two parsers agree: on every body that the Kerberos parser accepts over the fixed boundary, whose metadata
      contains "Length=" only once and whose stream contains no delimiter, the NTLM parser hands any session the same
      payload and the same header, and compares against the same length. */
  lemma AcceptedBodiesAgree(framer: K.Framer, mime: K.MimeParser, body: bytes, envelope: K.Envelope, session: Session)
    requires K.Extract(framer, mime, BOUNDARY, body) == Ok(envelope)
    requires OccursOnce(MetadataOf(body), LENGTH)
    requires !Occurs(Stream(envelope.header, envelope.payload), SEPARATOR)
    requires !Occurs(Stream(envelope.header, envelope.payload), OCTET_LINE)
    ensures Decrypt(body, session) == Verdict(session(0, envelope.payload, envelope.header), envelope.length)
  {
    BoundaryIsValid();
    P.ExtractSound(framer, mime, BOUNDARY, body, envelope);
    var metadata :| P.BodyForm(framer, mime, BOUNDARY, body, metadata, envelope);
    var protocol, contentType, digits, tail :|
      P.MetadataFields(mime, Marker(BOUNDARY), framer.maxPlaintextSize, metadata, envelope.length,
                       protocol, contentType, digits, tail);
    MetadataFound(framer, mime, body, metadata, envelope);
    OneLengthInMetadata(Marker(BOUNDARY), protocol, contentType, digits, tail);
    ParsersAgree(framer, mime, body, metadata, envelope, protocol, contentType, digits, tail, session);
  }

  lemma MetadataFound(framer: K.Framer, mime: K.MimeParser, body: bytes, metadata: bytes, envelope: K.Envelope)
    requires P.BodyForm(framer, mime, BOUNDARY, body, metadata, envelope)
    ensures MetadataOf(body) == metadata
  {
    var pattern := K.SearchPattern(Marker(BOUNDARY));
    var rest := Stream(envelope.header, envelope.payload) + (Marker(BOUNDARY) + TERMINAL);
    BoundaryIsValid();
    P.FirstMatch(mime, BOUNDARY, framer.maxPlaintextSize, metadata, envelope.length, rest);
    TextBefore(metadata, pattern, Stream(envelope.header, envelope.payload), Marker(BOUNDARY) + TERMINAL);
  }

  lemma TextBefore(metadata: bytes, pattern: bytes, stream: bytes, terminal: bytes)
    ensures (var body := metadata + pattern + stream + terminal;
             body == metadata + pattern + (stream + terminal) && body[..|metadata|] == metadata)
  {
  }

  /** In particular they agree on every message that either of them printed with a 16-byte header. */
  lemma PrintedBodiesAgree(framer: K.Framer, mime: K.MimeParser, plain: bytes, header: bytes, payload: bytes,
                           session: Session)
    requires |plain| <= framer.maxPlaintextSize && |plain| < TWO63 && K.IsSoapMedia(mime(SOAP_TYPE))
    requires |header| == 16 && |payload| > 0 && 16 + |payload| <= |plain| + K.MAX_WRAP_OVERHEAD
    requires !Occurs(Stream(header, payload), SEPARATOR) && !Occurs(Stream(header, payload), OCTET_LINE)
    ensures (var body := K.SealedBody(BOUNDARY, |plain|, header, payload);
             && K.Extract(framer, mime, BOUNDARY, body) == Ok(K.Envelope(|plain|, header, payload))
             && Decrypt(body, session) == Verdict(session(0, payload, header), |plain|))
  {
    var body := K.SealedBody(BOUNDARY, |plain|, header, payload);
    var digits := Decimal(|plain|);
    BoundaryIsValid();
    P.SealedBodyForm(framer, mime, BOUNDARY, |plain|, header, payload);
    PrintedFields(mime, framer.maxPlaintextSize, |plain|);
    SoapTypeHasNoLength();
    ParsersAgree(framer, mime, body, Metadata(Marker(BOUNDARY), PROTOCOL, SOAP_TYPE, digits) + CRLF,
                 K.Envelope(|plain|, header, payload), PROTOCOL, SOAP_TYPE, digits, CRLF, session);
  }

  lemma PrintedFields(mime: K.MimeParser, maxLength: int, n: nat)
    requires n <= maxLength && n < TWO63 && K.IsSoapMedia(mime(SOAP_TYPE))
    ensures P.MetadataFields(mime, Marker(BOUNDARY), maxLength,
                             Metadata(Marker(BOUNDARY), PROTOCOL, SOAP_TYPE, Decimal(n)) + CRLF, n,
                             PROTOCOL, SOAP_TYPE, Decimal(n), CRLF)
  {
    P.SoapTypeIsFree();
    P.ProtocolFolds();
    DecimalValue(n);
  }

  lemma SoapTypeHasNoLength()
    ensures !Occurs(SOAP_TYPE, LENGTH)
  {
    assert forall i :: 0 <= i < |SOAP_TYPE| ==> SOAP_TYPE[i] != 'L';
    assert LENGTH[0] == 'L';
    forall i ensures !OccursAt(SOAP_TYPE, LENGTH, i) {
      if 0 <= i && i + |LENGTH| <= |SOAP_TYPE| {
        assert SOAP_TYPE[i..i + |LENGTH|][0] == SOAP_TYPE[i];
      }
    }
  }

  lemma BoundaryIsValid()
    ensures K.ValidBoundary(BOUNDARY)
  {
  }

  /** The two printers agree byte for byte. */
  lemma PrintersAgree(plain: bytes, header: bytes, payload: bytes)
    ensures Body([Message(plain, Some(Wrapped(payload, header)))])
         == K.SealedBody(BOUNDARY, |plain|, header, payload)
  {
    var m := Message(plain, Some(Wrapped(payload, header)));
    var n := |plain|;
    assert Body([m]) == EncryptMessage(m.plain, m.wrapped) + Body([m][1..]);
    EncryptedSpelled(plain, m.wrapped);
    HeaderSpelled(n);
    EndSpelled();
    SealedLayout(Marker(BOUNDARY), TYPE_HEADER, PROTOCOL, CONTENT_HEADER + OriginalContent(SOAP_TYPE, Decimal(n)),
                 OCTET_LINE, Stream(header, payload), TERMINAL);
  }

  lemma SealedLayout(marker: bytes, name: bytes, protocol: bytes, third: bytes, line: bytes, stream: bytes,
                     terminal: bytes)
    ensures (marker + CRLF) + (name + protocol + CRLF + (third + CRLF))
        + (marker + CRLF) + (line + stream) + (marker + terminal)
         == ThreeLines(marker, name + protocol, third) + CRLF + marker + CRLF + line + stream + marker + terminal
  {
  }

  /** A message that NTLM sealed with a 16-byte signature is opened by the Kerberos framer,
      whatever its ciphertext holds. */
  lemma KerberosReadsNtlm(framer: K.Framer, mime: K.MimeParser, plain: bytes, signature: bytes, sealed: bytes)
    requires |plain| <= framer.maxPlaintextSize && |plain| < TWO63 && K.IsSoapMedia(mime(SOAP_TYPE))
    requires |signature| == 16 && |sealed| > 0 && 16 + |sealed| <= |plain| + K.MAX_WRAP_OVERHEAD
    ensures K.Extract(framer, mime, BOUNDARY, Body([Message(plain, Some(Wrapped(sealed, signature)))]))
         == Ok(K.Envelope(|plain|, signature, sealed))
  {
    PrintersAgree(plain, signature, sealed);
    BoundaryIsValid();
    P.SealedExtracts(framer, mime, BOUNDARY, |plain|, signature, sealed);
  }

  /** On a printed one-part body, against a session that opens nothing but what was sealed, the
      splitting parser returns the plaintext exactly if the stream contains no delimiter.  The Kerberos
      parser extracts it either way. */
  lemma OnlySplittingLoses(framer: K.Framer, mime: K.MimeParser, plain: bytes, signature: bytes, sealed: bytes,
                           session: Session)
    requires |plain| <= framer.maxPlaintextSize && |plain| < TWO63 && K.IsSoapMedia(mime(SOAP_TYPE))
    requires |signature| == 16 && |sealed| > 0 && 16 + |sealed| <= |plain| + K.MAX_WRAP_OVERHEAD
    requires var messages := [Message(plain, Some(Wrapped(sealed, signature)))];
             Honest(session, messages, 0) && Strict(session, messages, 0)
    ensures (var body := Body([Message(plain, Some(Wrapped(sealed, signature)))]);
             var stream := Stream(signature, sealed);
             && K.Extract(framer, mime, BOUNDARY, body) == Ok(K.Envelope(|plain|, signature, sealed))
             && (Decrypt(body, session) == Decrypted(plain) <==>
                   !Occurs(stream, SEPARATOR) && !Occurs(stream, OCTET_LINE)))
  {
    var m := Message(plain, Some(Wrapped(sealed, signature)));
    KerberosReadsNtlm(framer, mime, plain, signature, sealed);
    DecryptEncryptedIff([m], session);
    OneMessage(m);
  }

  lemma OneMessage(m: Message)
    ensures Plain([m]) == m.plain
    ensures AllSeparable([m]) <==> Separable(m, true)
  {
    assert [m][1..] == [] && m.plain + [] == m.plain;
    assert [m][0] == m;
  }
}
