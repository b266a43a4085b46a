/** When decrypting what was encrypted gives the messages back: exactly when every stream can be told apart from the
    delimiters that the parser splits on. */
module NtlmCodecProofs {

  import opened Wrappers
  import opened Bytes
  import opened Multipart
  import opened NtlmCodec

  // ----- searching across a joint -----

  /** No occurrence spans a joint at which the left side ends in the last byte of the separator. */
  lemma OccursAfterLast(a: bytes, b: bytes, sep: bytes, i: int)
    requires LastUnique(sep) && |a| > 0 && a[|a| - 1] == sep[|sep| - 1]
    requires OccursAt(a + b, sep, i)
    ensures i + |sep| <= |a| ==> OccursAt(a, sep, i)
    ensures i + |sep| <= |a| || (|a| <= i && OccursAt(b, sep, i - |a|))
  {
    var s := a + b;
    OccursBefore(a, b, sep, i);
    forall j | i <= j < i + |sep| ensures s[j] == sep[j - i] {
      assert s[j] == s[i..i + |sep|][j - i];
    }
    assert s[|a| - 1] == sep[|sep| - 1];
    if |a| <= i {
      var r := i - |a|;
      SliceOfTail(a, b, r, |sep|);
    }
  }

  /** No occurrence spans a joint whose right side has the last byte of the separator only
      at its own end, and is longer. */
  lemma OccursBeforeLast(a: bytes, b: bytes, sep: bytes, i: int)
    requires |sep| > 0 && |sep| <= |b|
    requires forall k :: 0 <= k < |b| - 1 ==> b[k] != sep[|sep| - 1]
    requires OccursAt(a + b, sep, i)
    ensures i + |sep| <= |a| ==> OccursAt(a, sep, i)
    ensures i + |sep| <= |a| || (|a| <= i && OccursAt(b, sep, i - |a|))
  {
    var s := a + b;
    OccursBefore(a, b, sep, i);
    assert s[i + |sep| - 1] == s[i..i + |sep|][|sep| - 1];
    if |a| <= i {
      var r := i - |a|;
      SliceOfTail(a, b, r, |sep|);
    }
  }

  lemma OccursAtInConcat(a: bytes, b: bytes, p: bytes, i: int)
    ensures OccursAt(a, p, i) ==> OccursAt(a + b, p, i)
    ensures OccursAt(b, p, i) ==> OccursAt(a + b, p, |a| + i)
  {
    if OccursAt(a, p, i) {
      SliceOfHead(a, b, i, |p|);
    }
    if OccursAt(b, p, i) {
      SliceOfTail(a, b, i, |p|);
    }
  }

  lemma SplitFree(a: bytes, sep: bytes)
    requires |sep| > 0 && !Occurs(a, sep)
    ensures Split(a, sep) == [a]
  {
  }

  // ----- the delimiters -----

  lemma Delimiters()
    ensures |SEPARATOR| == 22 && |END| == 24 && |MIME_BOUNDARY| == 20 && |OCTET_LINE| == 41
    ensures SEPARATOR[21] == '\n' && SEPARATOR[12] == 'B' && SEPARATOR[0] == '-' && SEPARATOR[1] == '-'
    ensures END[23] == '\n' && END[2] == 'E' && END[20] == '-'
    ensures OCTET_LINE[40] == '\n' && OCTET_LINE[38] == 'm'
  {
  }

  lemma DelimitersUnique()
    ensures LastUnique(SEPARATOR) && LastUnique(END) && LastUnique(OCTET_LINE)
  {
  }

  lemma OctetLineHasNoB()
    ensures forall k :: 0 <= k < |OCTET_LINE| ==> OCTET_LINE[k] != 'B'
  {
  }

  lemma NoByteIsFree(s: bytes, p: bytes, k: nat)
    requires k < |p| && forall i :: 0 <= i < |s| ==> s[i] != p[k]
    ensures !Occurs(s, p)
  {
    forall i ensures !OccursAt(s, p, i) {
      if 0 <= i && i + |p| <= |s| {
        assert s[i..i + |p|][k] == s[i + k];
      }
    }
  }

  lemma OctetLineIsFree()
    ensures !Occurs(OCTET_LINE, SEPARATOR)
  {
    OctetLineHasNoB();
    Delimiters();
    NoByteIsFree(OCTET_LINE, SEPARATOR, 12);
  }

  lemma EndIsFree()
    ensures !Occurs(END, SEPARATOR)
  {
    Delimiters();
    DelimitersUnique();
    forall i ensures !OccursAt(END, SEPARATOR, i) {
      if 0 <= i && i + 22 <= 24 {
        assert END[i..i + 22][21] == END[i + 21];
        assert END[i..i + 22][0] == END[i];
        assert i == 0 || i == 1 || i == 2;
      }
    }
  }

  lemma EndSpelled()
    ensures END == MIME_BOUNDARY + TERMINAL
    ensures SEPARATOR == MIME_BOUNDARY + CRLF
    ensures MIME_BOUNDARY == Marker(BOUNDARY)
  {
  }

  // ----- the header of a part -----

  /** The header of a part up to its length: everything before "Length=". */
  function HeaderText(): bytes {
    TYPE_HEADER + PROTOCOL + CRLF + CONTENT_HEADER + TYPE_PREFIX + SOAP_TYPE + ";"
  }

  function Header(n: nat): bytes {
    HeaderText() + LENGTH + (Decimal(n) + CRLF)
  }

  lemma ConstantsHaveNoDelimiterByte()
    ensures forall i :: 0 <= i < |PROTOCOL| ==> PROTOCOL[i] != 'B' && PROTOCOL[i] != 'L'
    ensures forall i :: 0 <= i < |SOAP_TYPE| ==> SOAP_TYPE[i] != 'B' && SOAP_TYPE[i] != 'L'
  {
  }

  lemma HeadersHaveNoDelimiterByte()
    ensures forall i :: 0 <= i < |TYPE_HEADER| ==> TYPE_HEADER[i] != 'B' && TYPE_HEADER[i] != 'L'
    ensures forall i :: 0 <= i < |CONTENT_HEADER| ==> CONTENT_HEADER[i] != 'B' && CONTENT_HEADER[i] != 'L'
    ensures forall i :: 0 <= i < |TYPE_PREFIX| ==> TYPE_PREFIX[i] != 'B' && TYPE_PREFIX[i] != 'L'
  {
  }

  lemma HeaderTextHasNoDelimiterByte()
    ensures forall i :: 0 <= i < |HeaderText()| ==> HeaderText()[i] != 'B' && HeaderText()[i] != 'L'
  {
    ConstantsHaveNoDelimiterByte();
    HeadersHaveNoDelimiterByte();
    assert CRLF[0] == '\r' && CRLF[1] == '\n';
    HeaderTextByte(TYPE_HEADER, PROTOCOL, CRLF, CONTENT_HEADER, TYPE_PREFIX, SOAP_TYPE, ";");
  }

  lemma HeaderTextByte(a: bytes, b: bytes, c: bytes, d: bytes, e: bytes, f: bytes, g: bytes)
    ensures forall i :: 0 <= i < |a + b + c + d + e + f + g| ==>
              var x := (a + b + c + d + e + f + g)[i];
              x in a || x in b || x in c || x in d || x in e || x in f || x in g
  {
  }

  lemma LengthTagBytes()
    ensures LastUnique(LENGTH) && LENGTH[0] == 'L'
    ensures forall i :: 0 <= i < |LENGTH| ==> LENGTH[i] != 'B'
  {
  }

  lemma HeaderIsFree(n: nat)
    ensures !Occurs(Header(n), SEPARATOR)
  {
    HeaderTextHasNoDelimiterByte();
    LengthTagBytes();
    Delimiters();
    NoByteIsFree(Header(n), SEPARATOR, 12);
  }

  lemma {:induction false} DigitsAreNoSpace(w: bytes)
    requires |w| > 0 && IsDigit(w[0])
    ensures !IsSpace(w)
  {
  }

  lemma {:induction false} TrimRightDigits(digits: bytes)
    requires |digits| > 0 && AllDigits(digits)
    ensures TrimRight(digits) == digits
  {
    var n := |digits|;
    DigitsAreNoSpace(digits[n - 1..]);
    if n >= 2 {
      DigitsAreNoSpace(digits[n - 2..]);
    }
    if n >= 3 {
      DigitsAreNoSpace(digits[n - 3..]);
    }
  }

  lemma {:induction false} TrimLeftDigits(digits: bytes, rest: bytes)
    requires |digits| > 0 && AllDigits(digits)
    ensures TrimLeft(digits + rest) == digits + rest
  {
    var s := digits + rest;
    DigitsAreNoSpace(s[..1]);
    if |s| >= 2 {
      DigitsAreNoSpace(s[..2]);
    }
    if |s| >= 3 {
      DigitsAreNoSpace(s[..3]);
    }
  }

  lemma TrimDigits(digits: bytes)
    requires |digits| > 0 && AllDigits(digits)
    ensures TrimSpace(digits + CRLF) == digits
  {
    var s := digits + CRLF;
    TrimLeftDigits(digits, CRLF);
    var t := digits + ['\r'];
    assert s[|s| - 1..] == ['\n'] && s[..|s| - 1] == t;
    assert TrimRight(s) == TrimRight(t);
    assert t[|t| - 1..] == ['\r'] && t[..|t| - 1] == digits;
    assert TrimRight(t) == TrimRight(digits);
    TrimRightDigits(digits);
  }

  lemma HeaderLength(n: nat)
    requires n < TWO63
    ensures LengthText(Header(n)).Some?
    ensures Atoi(TrimSpace(LengthText(Header(n)).value)) == (n, true)
  {
    HeaderTextHasNoDelimiterByte();
    LengthTagBytes();
    var text := Decimal(n) + CRLF;
    NoByteIsFree(HeaderText(), LENGTH, 0);
    NoByteIsFree(text, LENGTH, 0);
    SplitAfterFree(HeaderText(), LENGTH, text);
    SplitFree(text, LENGTH);
    TrimDigits(Decimal(n));
    AtoiDecimal(n);
  }

  // ----- the payload of a part -----

  lemma PayloadSuffix(stream: bytes)
    ensures HasSuffix(OCTET_LINE + stream, END) <==> HasSuffix(stream, END)
  {
    Delimiters();
    DelimitersUnique();
    var s := OCTET_LINE + stream;
    if |stream| >= 24 {
      assert s[|s| - 24..] == stream[|stream| - 24..];
    } else {
      assert s[|s| - 24..][23 - |stream|] == s[40] == '\n';
      assert |stream| == 0 ==> s[|s| - 24..][21] == s[38] == 'm';
      assert END[21] == '-';
    }
  }

  lemma PayloadData(stream: bytes)
    ensures RemoveAll(OCTET_LINE + stream, OCTET_LINE) == RemoveAll(stream, OCTET_LINE)
  {
    DelimitersUnique();
    var s := OCTET_LINE + stream;
    assert !Occurs([], OCTET_LINE);
    assert s == [] + OCTET_LINE + stream;
    SplitAfterFree([], OCTET_LINE, stream);
    var parts := Split(stream, OCTET_LINE);
    assert ([[]] + parts)[1..] == parts;
    assert Flatten([[]] + parts) == [] + Flatten(parts);
  }

  /** What is handed to the session, from a payload that holds `stream`. */
  lemma StrippedData(stream: bytes)
    ensures var data := RemoveAll(StripEnd(OCTET_LINE + stream), OCTET_LINE);
            && |data| <= |stream|
            && (HasSuffix(stream, END) || Occurs(stream, OCTET_LINE) ==> |data| < |stream|)
            && (!HasSuffix(stream, END) && !Occurs(stream, OCTET_LINE) ==> data == stream)
  {
    Delimiters();
    PayloadSuffix(stream);
    if HasSuffix(stream, END) {
      var short := stream[..|stream| - 24];
      assert StripEnd(OCTET_LINE + stream) == OCTET_LINE + short;
      PayloadData(short);
      RemoveAllLength(short, OCTET_LINE);
    } else {
      PayloadData(stream);
      RemoveAllLength(stream, OCTET_LINE);
    }
  }

  lemma StrippedLast(stream: bytes)
    ensures StripEnd(OCTET_LINE + stream + END) == OCTET_LINE + stream
  {
    Delimiters();
    var s := OCTET_LINE + stream + END;
    assert s[|s| - 24..] == END;
    assert s[..|s| - 24] == OCTET_LINE + stream;
  }

  // ----- the body as a text to split -----

  lemma {:induction false} FlattenEight(a: bytes, b: bytes, c: bytes, d: bytes, e: bytes, f: bytes, g: bytes, h: bytes)
    ensures Flatten([a, b, c, d, e, f, g, h]) == a + b + c + d + e + f + g + h
  {
    assert [a, b, c, d, e, f, g, h] == [a, b, c, d] + [e, f, g, h];
    FlattenAppend([a, b, c, d], [e, f, g, h]);
    FlattenFour(a, b, c, d);
    FlattenFour(e, f, g, h);
    assert (a + b + c + d) + (e + f + g + h) == a + b + c + d + e + f + g + h;
  }

  lemma {:induction false} FlattenFour(a: bytes, b: bytes, c: bytes, d: bytes)
    ensures Flatten([a, b, c, d]) == a + b + c + d
  {
    assert [a, b, c, d] == [a] + ([b] + ([c] + [d]));
    FlattenAppend([a], [b] + ([c] + [d]));
    FlattenAppend([b], [c] + [d]);
    FlattenAppend([c], [d]);
    FlattenOne(a);
    FlattenOne(b);
    FlattenOne(c);
    FlattenOne(d);
    assert a + (b + (c + d)) == a + b + c + d;
  }

  lemma FlattenOne(a: bytes)
    ensures Flatten([a]) == a
  {
    assert Flatten([a]) == a + Flatten([a][1..]);
  }

  lemma HeaderSpelled(n: nat)
    ensures TYPE_HEADER + PROTOCOL + CRLF + (CONTENT_HEADER + OriginalContent(SOAP_TYPE, Decimal(n)) + CRLF)
         == Header(n)
  {
    LengthTagSpelled();
    HeaderPieces(TYPE_HEADER, PROTOCOL, CRLF, CONTENT_HEADER, TYPE_PREFIX, SOAP_TYPE, ";", LENGTH, Decimal(n));
  }

  lemma LengthTagSpelled()
    ensures LENGTH_TAG == ";" + LENGTH
  {
  }

  lemma HeaderPieces(a: bytes, b: bytes, c: bytes, d: bytes, e: bytes, f: bytes, g: bytes, h: bytes, n: bytes)
    ensures a + b + c + (d + (e + f + (g + h) + n) + c) == a + b + c + d + e + f + g + h + (n + c)
  {
  }

  lemma EncryptedSpelled(message: bytes, wrapped: Option<Wrapped>)
    ensures EncryptMessage(message, wrapped)
         == SEPARATOR + Header(|message|) + SEPARATOR + (OCTET_LINE + StreamOf(wrapped))
  {
    var first, second := TYPE_HEADER + PROTOCOL + CRLF,
        CONTENT_HEADER + OriginalContent(SOAP_TYPE, Decimal(|message|)) + CRLF;
    EndSpelled();
    HeaderSpelled(|message|);
    FlattenEight(MIME_BOUNDARY, CRLF, first, second, MIME_BOUNDARY, CRLF, OCTET_LINE, StreamOf(wrapped));
    PartPieces(MIME_BOUNDARY, CRLF, first, second, OCTET_LINE, StreamOf(wrapped));
  }

  lemma PartPieces(m: bytes, c: bytes, first: bytes, second: bytes, line: bytes, stream: bytes)
    ensures m + c + first + second + m + c + line + stream == (m + c) + (first + second) + (m + c) + (line + stream)
  {
  }

  /** The body without its leading separator. */
  function Rest(messages: seq<Message>): bytes
    requires |messages| > 0
  {
    Header(|messages[0].plain|) + SEPARATOR + (OCTET_LINE + StreamOf(messages[0].wrapped) + Body(messages[1..]))
  }

  lemma BodyRest(messages: seq<Message>)
    ensures |messages| == 0 ==> Body(messages) == END
    ensures |messages| > 0 ==> Body(messages) == SEPARATOR + Rest(messages)
  {
    EndSpelled();
    if |messages| > 0 {
      var m := messages[0];
      EncryptedSpelled(m.plain, m.wrapped);
      BodyPieces(SEPARATOR, Header(|m.plain|), OCTET_LINE + StreamOf(m.wrapped), Body(messages[1..]));
    }
  }

  lemma BodyPieces(sep: bytes, header: bytes, payload: bytes, rest: bytes)
    ensures sep + header + sep + payload + rest == sep + (header + sep + (payload + rest))
  {
  }

  lemma RestSplit(messages: seq<Message>)
    requires |messages| > 0
    ensures (var payload := OCTET_LINE + StreamOf(messages[0].wrapped) + Body(messages[1..]);
             Split(Rest(messages), SEPARATOR) == [Header(|messages[0].plain|)] + Split(payload, SEPARATOR))
  {
    var payload := OCTET_LINE + StreamOf(messages[0].wrapped) + Body(messages[1..]);
    DelimitersUnique();
    HeaderIsFree(|messages[0].plain|);
    SplitAfterFree(Header(|messages[0].plain|), SEPARATOR, payload);
  }

  /** An occurrence of the separator in a payload lies in its stream. */
  lemma PayloadOccurrence(stream: bytes, rest: bytes, i: int)
    requires OccursAt(OCTET_LINE + stream + rest, SEPARATOR, i)
    ensures |OCTET_LINE| <= i
  {
    Delimiters();
    DelimitersUnique();
    OctetLineIsFree();
    assert OCTET_LINE + stream + rest == OCTET_LINE + (stream + rest);
    OccursAfterLast(OCTET_LINE, stream + rest, SEPARATOR, i);
  }

  lemma PayloadIsFree(stream: bytes)
    requires !Occurs(stream, SEPARATOR)
    ensures !Occurs(OCTET_LINE + stream, SEPARATOR)
  {
    Delimiters();
    DelimitersUnique();
    OctetLineIsFree();
    if Occurs(OCTET_LINE + stream, SEPARATOR) {
      var i :| OccursAt(OCTET_LINE + stream, SEPARATOR, i);
      OccursAfterLast(OCTET_LINE, stream, SEPARATOR, i);
    }
  }

  lemma EndHasOneLineFeed()
    ensures forall k :: 0 <= k < |END| - 1 ==> END[k] != '\n'
  {
  }

  lemma LastPayloadIsFree(payload: bytes)
    requires !Occurs(payload, SEPARATOR)
    ensures !Occurs(payload + END, SEPARATOR)
  {
    Delimiters();
    EndIsFree();
    EndHasOneLineFeed();
    if Occurs(payload + END, SEPARATOR) {
      var i :| OccursAt(payload + END, SEPARATOR, i);
      OccursBeforeLast(payload, END, SEPARATOR, i);
    }
  }

  lemma SplitBeforeSeparator(a: bytes, sep: bytes, rest: bytes)
    requires LastUnique(sep) && !Occurs(a, sep)
    ensures Split(a + (sep + rest), sep) == [a] + Split(rest, sep)
  {
    assert a + (sep + rest) == a + sep + rest;
    SplitAfterFree(a, sep, rest);
  }

  /** A stream free of the separator stays in one piece. */
  lemma FreePayloadSplit(stream: bytes, rest: seq<Message>)
    requires !Occurs(stream, SEPARATOR)
    ensures Split(OCTET_LINE + stream + Body(rest), SEPARATOR)
         == if |rest| == 0 then [OCTET_LINE + stream + END] else [OCTET_LINE + stream] + Split(Rest(rest), SEPARATOR)
  {
    var payload := OCTET_LINE + stream;
    DelimitersUnique();
    BodyRest(rest);
    PayloadIsFree(stream);
    if |rest| == 0 {
      LastPayloadIsFree(payload);
      SplitFree(payload + END, SEPARATOR);
    } else {
      SplitBeforeSeparator(payload, SEPARATOR, Rest(rest));
    }
  }

  /** A stream that contains the separator is cut short. */
  lemma BrokenPayloadSplit(stream: bytes, rest: bytes) returns (piece: bytes)
    requires Occurs(stream, SEPARATOR)
    ensures |piece| < |stream|
    ensures Split(OCTET_LINE + stream + rest, SEPARATOR)[0] == OCTET_LINE + piece
  {
    var i := FirstInPayload(stream, rest);
    piece := stream[..i];
    PayloadPrefix(OCTET_LINE, stream, rest, i);
  }

  lemma PayloadPrefix(line: bytes, stream: bytes, rest: bytes, i: nat)
    requires i <= |stream|
    ensures (line + stream + rest)[..|line| + i] == line + stream[..i]
  {
  }

  /** The first separator in such a payload lies inside the stream. */
  lemma FirstInPayload(stream: bytes, rest: bytes) returns (i: nat)
    requires Occurs(stream, SEPARATOR)
    ensures i < |stream| && Index(OCTET_LINE + stream + rest, SEPARATOR) == |OCTET_LINE| + i
  {
    var j :| OccursAt(stream, SEPARATOR, j);
    Delimiters();
    OccursAtInConcat(OCTET_LINE, stream, SEPARATOR, j);
    OccursAtInConcat(OCTET_LINE + stream, rest, SEPARATOR, |OCTET_LINE| + j);
    var first := Index(OCTET_LINE + stream + rest, SEPARATOR);
    PayloadOccurrence(stream, rest, first);
    i := first - |OCTET_LINE|;
  }

  // ----- one pair -----

  /** A stream that survives the parser: it was sealed, its length prefix does not wrap,
      and it contains no delimiter. */
  ghost predicate Separable(m: Message, last: bool) {
    && m.wrapped.Some?
    && |m.wrapped.value.signature| < TWO32
    && !Occurs(StreamOf(m.wrapped), SEPARATOR)
    && !Occurs(StreamOf(m.wrapped), OCTET_LINE)
    && (last || !HasSuffix(StreamOf(m.wrapped), END))
  }

  /** The session opens what was sealed, in order. */
  ghost predicate Honest(session: Session, messages: seq<Message>, call: nat) {
    forall j, sealed, signature ::
      call <= j < call + |messages| && messages[j - call].wrapped == Some(Wrapped(sealed, signature)) ==>
        session(j, sealed, signature) == Some(messages[j - call].plain)
  }

  /** The session opens nothing else: its integrity check never passes on other bytes. */
  ghost predicate Strict(session: Session, messages: seq<Message>, call: nat) {
    forall j, sealed, signature ::
      call <= j < call + |messages| && session(j, sealed, signature).Some? ==>
        messages[j - call].wrapped == Some(Wrapped(sealed, signature))
  }

  lemma {:induction false} HonestTail(session: Session, messages: seq<Message>, call: nat)
    requires |messages| > 0
    ensures Honest(session, messages, call) ==> Honest(session, messages[1..], call + 1)
    ensures Strict(session, messages, call) ==> Strict(session, messages[1..], call + 1)
  {
  }

  lemma StreamVerdict(signature: bytes, sealed: bytes, call: nat, session: Session)
    requires |signature| < TWO32
    ensures DecryptStream(Stream(signature, sealed), call, session)
         == (var message := session(call, sealed, signature);
             if message.None? then Rejected else Decrypted(message.value))
  {
    Le32RoundTrip(|signature|);
    StreamCut(Le32(|signature|), signature, sealed, call, session);
  }

  lemma StreamCut(prefix: bytes, signature: bytes, sealed: bytes, call: nat, session: Session)
    requires |prefix| == 4 && FromLe32(prefix) == |signature|
    ensures DecryptStream(prefix + signature + sealed, call, session)
         == (var message := session(call, sealed, signature);
             if message.None? then Rejected else Decrypted(message.value))
  {
    ThreeSlices(prefix, signature, sealed);
  }

  lemma ThreeSlices(a: bytes, b: bytes, c: bytes)
    ensures var s := a + b + c;
            s[..|a|] == a && s[|a|..|b| + |a|] == b && s[|b| + |a|..] == c
  {
  }

  /** A strict session decrypts a stream only when it is as long as the one that was sealed. */
  lemma StrictDecrypts(m: Message, data: bytes, call: nat, session: Session)
    requires Strict(session, [m], call)
    requires DecryptStream(data, call, session).Decrypted?
    ensures m.wrapped.Some? && |data| == |StreamOf(m.wrapped)|
    ensures data == StreamOf(m.wrapped) ==> |m.wrapped.value.signature| < TWO32
  {
    var n := FromLe32(data[..4]);
    assert session(call, data[n + 4..], data[4..n + 4]).Some?;
    assert [m][call - call].wrapped == Some(Wrapped(data[n + 4..], data[4..n + 4]));
  }

  /** What the session makes of a message, on its `call`-th unwrapping. */
  function Opening(m: Message, call: nat, session: Session): Option<bytes> {
    if m.wrapped.None? then None else session(call, m.wrapped.value.sealed, m.wrapped.value.signature)
  }

  /** The session opens the message, to a plaintext of the declared length. */
  predicate Passes(m: Message, call: nat, session: Session) {
    Opening(m, call, session).Some? && |Opening(m, call, session).value| == |m.plain|
  }

  /** A separable part is handed to the session, and its plaintext is accepted exactly if it has the declared length. */
  lemma AnyPair(m: Message, payload: bytes, last: bool, call: nat, session: Session)
    requires Separable(m, last) && |m.plain| < TWO63
    requires payload == if last then OCTET_LINE + StreamOf(m.wrapped) + END else OCTET_LINE + StreamOf(m.wrapped)
    ensures DecryptPair(Header(|m.plain|), payload, call, session)
         == if Passes(m, call, session) then Decrypted(Opening(m, call, session).value) else Rejected
  {
    var stream := StreamOf(m.wrapped);
    HeaderLength(|m.plain|);
    if last {
      StrippedLast(stream);
      PayloadData(stream);
      RemoveAllLength(stream, OCTET_LINE);
    } else {
      StrippedData(stream);
    }
    StreamVerdict(m.wrapped.value.signature, m.wrapped.value.sealed, call, session);
  }

  /** A separable part decrypts to its message, if the session opens what was sealed. */
  lemma GoodPair(m: Message, payload: bytes, last: bool, call: nat, session: Session)
    requires Separable(m, last) && |m.plain| < TWO63
    requires Honest(session, [m], call)
    requires payload == if last then OCTET_LINE + StreamOf(m.wrapped) + END else OCTET_LINE + StreamOf(m.wrapped)
    ensures DecryptPair(Header(|m.plain|), payload, call, session) == Decrypted(m.plain)
  {
    var w := m.wrapped.value;
    assert [m][call - call].wrapped == Some(Wrapped(w.sealed, w.signature));
    assert session(call, w.sealed, w.signature) == Some([m][call - call].plain);
    AnyPair(m, payload, last, call, session);
  }

  /** A part that is not separable does not decrypt, although the parser may have cut its stream into pieces. */
  lemma BadPair(m: Message, payload: bytes, last: bool, call: nat, session: Session)
    requires !Separable(m, last) && !Occurs(StreamOf(m.wrapped), SEPARATOR)
    requires Strict(session, [m], call)
    requires payload == if last then OCTET_LINE + StreamOf(m.wrapped) + END else OCTET_LINE + StreamOf(m.wrapped)
    ensures !DecryptPair(Header(|m.plain|), payload, call, session).Decrypted?
  {
    var stream := StreamOf(m.wrapped);
    if last {
      StrippedLast(stream);
      PayloadData(stream);
      RemoveAllLength(stream, OCTET_LINE);
    } else {
      StrippedData(stream);
    }
    var data := RemoveAll(StripEnd(payload), OCTET_LINE);
    if DecryptStream(data, call, session).Decrypted? {
      StrictDecrypts(m, data, call, session);
    }
  }

  lemma BrokenPair(m: Message, piece: bytes, call: nat, session: Session)
    requires |piece| < |StreamOf(m.wrapped)|
    requires Strict(session, [m], call)
    ensures !DecryptPair(Header(|m.plain|), OCTET_LINE + piece, call, session).Decrypted?
  {
    StrippedData(piece);
    var data := RemoveAll(StripEnd(OCTET_LINE + piece), OCTET_LINE);
    if DecryptStream(data, call, session).Decrypted? {
      StrictDecrypts(m, data, call, session);
    }
  }

  // ----- the round trip -----

  ghost predicate AllSeparable(messages: seq<Message>) {
    forall i :: 0 <= i < |messages| ==> Separable(messages[i], i == |messages| - 1)
  }

  lemma AllSeparableTail(messages: seq<Message>)
    requires |messages| > 0
    ensures AllSeparable(messages) <==> Separable(messages[0], |messages| == 1) && AllSeparable(messages[1..])
  {
    if Separable(messages[0], |messages| == 1) && AllSeparable(messages[1..]) {
      forall i | 0 <= i < |messages| ensures Separable(messages[i], i == |messages| - 1) {
        if i > 0 {
          assert messages[i] == messages[1..][i - 1];
        }
      }
    }
    if AllSeparable(messages) {
      forall i | 0 <= i < |messages[1..]| ensures Separable(messages[1..][i], i == |messages[1..]| - 1) {
        assert messages[1..][i] == messages[i + 1];
      }
    }
  }

  ghost predicate LengthsFit(messages: seq<Message>) {
    forall i :: 0 <= i < |messages| ==> |messages[i].plain| < TWO63
  }

  lemma HeadOf(session: Session, messages: seq<Message>, call: nat)
    requires |messages| > 0
    ensures Honest(session, messages, call) ==> Honest(session, [messages[0]], call)
    ensures Strict(session, messages, call) ==> Strict(session, [messages[0]], call)
  {
  }

  /** The parts that the parser sees from the first message on. */
  function Parts(messages: seq<Message>): seq<bytes>
    requires |messages| > 0
  {
    NonEmpty(Split(Rest(messages), SEPARATOR))
  }

  lemma LastParts(messages: seq<Message>)
    requires |messages| == 1 && !Occurs(StreamOf(messages[0].wrapped), SEPARATOR)
    ensures Parts(messages) == [Header(|messages[0].plain|), OCTET_LINE + StreamOf(messages[0].wrapped) + END]
  {
    var header, payload := Header(|messages[0].plain|), OCTET_LINE + StreamOf(messages[0].wrapped) + END;
    RestSplit(messages);
    FreePayloadSplit(StreamOf(messages[0].wrapped), messages[1..]);
    NonEmptyCons(header, [payload]);
    NonEmptyCons(payload, []);
    assert [payload] + [] == [payload];
  }

  lemma FirstParts(messages: seq<Message>)
    requires |messages| > 1 && !Occurs(StreamOf(messages[0].wrapped), SEPARATOR)
    ensures Parts(messages) == [Header(|messages[0].plain|), OCTET_LINE + StreamOf(messages[0].wrapped)]
            + Parts(messages[1..])
  {
    var header, payload := Header(|messages[0].plain|), OCTET_LINE + StreamOf(messages[0].wrapped);
    RestSplit(messages);
    FreePayloadSplit(StreamOf(messages[0].wrapped), messages[1..]);
    var more := Split(Rest(messages[1..]), SEPARATOR);
    NonEmptyPair(header, payload, more);
  }

  lemma NonEmptyPair(header: bytes, payload: bytes, more: seq<bytes>)
    requires |header| > 0 && |payload| > 0
    ensures NonEmpty([header] + ([payload] + more)) == [header, payload] + NonEmpty(more)
  {
    NonEmptyCons(header, [payload] + more);
    NonEmptyCons(payload, more);
    assert [header] + ([payload] + NonEmpty(more)) == [header, payload] + NonEmpty(more);
  }

  lemma NonEmptyCons(part: bytes, rest: seq<bytes>)
    requires |part| > 0
    ensures NonEmpty([part] + rest) == [part] + NonEmpty(rest)
  {
    assert ([part] + rest)[1..] == rest;
  }

  lemma BrokenParts(messages: seq<Message>) returns (piece: bytes, more: seq<bytes>)
    requires |messages| > 0 && Occurs(StreamOf(messages[0].wrapped), SEPARATOR)
    ensures |piece| < |StreamOf(messages[0].wrapped)|
    ensures Parts(messages) == [Header(|messages[0].plain|), OCTET_LINE + piece] + more
  {
    var header, stream := Header(|messages[0].plain|), StreamOf(messages[0].wrapped);
    RestSplit(messages);
    piece := BrokenPayloadSplit(stream, Body(messages[1..]));
    var split := Split(OCTET_LINE + stream + Body(messages[1..]), SEPARATOR);
    assert split == [OCTET_LINE + piece] + split[1..];
    NonEmptyCons(header, split);
    NonEmptyCons(OCTET_LINE + piece, split[1..]);
    more := NonEmpty(split[1..]);
  }

  lemma PairStep(header: bytes, payload: bytes, more: seq<bytes>, call: nat, session: Session)
    ensures DecryptPairs([header, payload] + more, call, session)
         == (var first := DecryptPair(header, payload, call, session);
             if !first.Decrypted? then first else Prepend(first.message, DecryptPairs(more, call + 1, session)))
  {
    assert ([header, payload] + more)[2..] == more;
  }

  /** Decryption of separable parts, by any session that opens what was sealed. */
  lemma {:induction false} PairsDecrypt(messages: seq<Message>, call: nat, session: Session)
    requires |messages| > 0 && AllSeparable(messages) && LengthsFit(messages)
    requires Honest(session, messages, call)
    ensures DecryptPairs(Parts(messages), call, session) == Decrypted(Plain(messages))
  {
    var m := messages[0];
    var header, stream := Header(|m.plain|), StreamOf(m.wrapped);
    AllSeparableTail(messages);
    HeadOf(session, messages, call);
    if |messages| == 1 {
      LastParts(messages);
      GoodPair(m, OCTET_LINE + stream + END, true, call, session);
      PairStep(header, OCTET_LINE + stream + END, [], call, session);
      assert Parts(messages) == [header, OCTET_LINE + stream + END] + [];
      assert Plain(messages[1..]) == [];
    } else {
      FirstParts(messages);
      GoodPair(m, OCTET_LINE + stream, false, call, session);
      PairStep(header, OCTET_LINE + stream, Parts(messages[1..]), call, session);
      HonestTail(session, messages, call);
      PairsDecrypt(messages[1..], call + 1, session);
    }
  }

  /** With a strict session, one part that is not separable spoils the whole body. */
  lemma {:induction false} PairsFail(messages: seq<Message>, call: nat, session: Session)
    requires |messages| > 0 && !AllSeparable(messages) && LengthsFit(messages)
    requires Honest(session, messages, call) && Strict(session, messages, call)
    ensures !DecryptPairs(Parts(messages), call, session).Decrypted?
  {
    var m := messages[0];
    var header, stream := Header(|m.plain|), StreamOf(m.wrapped);
    AllSeparableTail(messages);
    HeadOf(session, messages, call);
    if Occurs(stream, SEPARATOR) {
      var piece, more := BrokenParts(messages);
      BrokenPair(m, piece, call, session);
      PairStep(header, OCTET_LINE + piece, more, call, session);
    } else if |messages| == 1 {
      LastParts(messages);
      BadPair(m, OCTET_LINE + stream + END, true, call, session);
      PairStep(header, OCTET_LINE + stream + END, [], call, session);
      assert Parts(messages) == [header, OCTET_LINE + stream + END] + [];
    } else {
      FirstParts(messages);
      PairStep(header, OCTET_LINE + stream, Parts(messages[1..]), call, session);
      if Separable(m, false) {
        HonestTail(session, messages, call);
        PairsFail(messages[1..], call + 1, session);
      } else {
        BadPair(m, OCTET_LINE + stream, false, call, session);
      }
    }
  }

  lemma LeadingSeparator(rest: bytes)
    ensures NonEmpty(Split(SEPARATOR + rest, SEPARATOR)) == NonEmpty(Split(rest, SEPARATOR))
  {
    var empty: bytes := [];
    DelimitersUnique();
    assert !Occurs(empty, SEPARATOR);
    assert SEPARATOR + rest == empty + SEPARATOR + rest;
    SplitAfterFree(empty, SEPARATOR, rest);
    assert ([empty] + Split(rest, SEPARATOR))[1..] == Split(rest, SEPARATOR);
  }

  lemma BodyParts(messages: seq<Message>)
    ensures NonEmpty(Split(Body(messages), SEPARATOR)) == if |messages| == 0 then [END] else Parts(messages)
  {
    BodyRest(messages);
    if |messages| == 0 {
      EndIsFree();
      SplitFree(END, SEPARATOR);
      NonEmptyCons(END, []);
      assert [END] + [] == [END];
    } else {
      LeadingSeparator(Rest(messages));
    }
  }

  /** NTLM round trip: a non-empty list of separable messages decrypts to its plaintext. */
  lemma DecryptEncrypted(messages: seq<Message>, session: Session)
    requires |messages| > 0 && AllSeparable(messages) && LengthsFit(messages)
    requires Honest(session, messages, 0)
    ensures Decrypt(Body(messages), session) == Decrypted(Plain(messages))
  {
    BodyParts(messages);
    PairsDecrypt(messages, 0, session);
  }

  /** Every message, from the `call`-th unwrapping on, is opened to a plaintext of its declared length. */
  ghost predicate AllPass(messages: seq<Message>, call: nat, session: Session) {
    forall i :: 0 <= i < |messages| ==> Passes(messages[i], call + i, session)
  }

  lemma AllPassTail(messages: seq<Message>, call: nat, session: Session)
    requires |messages| > 0
    ensures AllPass(messages, call, session)
       <==> Passes(messages[0], call, session) && AllPass(messages[1..], call + 1, session)
  {
    assert forall i :: 0 <= i < |messages| - 1 ==> messages[1..][i] == messages[i + 1];
    if Passes(messages[0], call, session) && AllPass(messages[1..], call + 1, session) {
      forall i | 0 <= i < |messages| ensures Passes(messages[i], call + i, session) {
        if i > 0 {
          assert Passes(messages[1..][i - 1], call + 1 + (i - 1), session);
        }
      }
    }
    if AllPass(messages, call, session) {
      assert Passes(messages[0], call + 0, session);
      forall i | 0 <= i < |messages| - 1 ensures Passes(messages[1..][i], call + 1 + i, session) {
        assert Passes(messages[i + 1], call + (i + 1), session);
      }
    }
  }

  /** The plaintexts that the session returns, one after the other. */
  function OpenedBy(messages: seq<Message>, call: nat, session: Session): bytes {
    if |messages| == 0 then []
    else
      var first := Opening(messages[0], call, session);
      (if first.Some? then first.value else []) + OpenedBy(messages[1..], call + 1, session)
  }

  lemma {:induction false} PairsVerdict(messages: seq<Message>, call: nat, session: Session)
    requires |messages| > 0 && AllSeparable(messages) && LengthsFit(messages)
    ensures DecryptPairs(Parts(messages), call, session)
         == if AllPass(messages, call, session) then Decrypted(OpenedBy(messages, call, session)) else Rejected
  {
    var m := messages[0];
    var header, stream := Header(|m.plain|), StreamOf(m.wrapped);
    AllSeparableTail(messages);
    AllPassTail(messages, call, session);
    if |messages| == 1 {
      LastParts(messages);
      AnyPair(m, OCTET_LINE + stream + END, true, call, session);
      PairStep(header, OCTET_LINE + stream + END, [], call, session);
      assert Parts(messages) == [header, OCTET_LINE + stream + END] + [];
      assert OpenedBy(messages[1..], call + 1, session) == [] && AllPass(messages[1..], call + 1, session);
    } else {
      FirstParts(messages);
      AnyPair(m, OCTET_LINE + stream, false, call, session);
      PairStep(header, OCTET_LINE + stream, Parts(messages[1..]), call, session);
      PairsVerdict(messages[1..], call + 1, session);
    }
  }

  /** For every session: a body of separable messages decrypts to what the session returns, if each of its answers has
      the length declared in its own part; if one answer is an error or has another length, nothing is returned. */
  lemma DecryptAnySession(messages: seq<Message>, session: Session)
    requires |messages| > 0 && AllSeparable(messages) && LengthsFit(messages)
    ensures Decrypt(Body(messages), session)
         == if AllPass(messages, 0, session) then Decrypted(OpenedBy(messages, 0, session)) else Rejected
  {
    BodyParts(messages);
    PairsVerdict(messages, 0, session);
  }

  /** Which pairs of parts decrypt, on any input: the text after the first "Length=" is the length of the plaintext, and
      what remains of the payload is a length-prefixed signature and a ciphertext that the session opens. */
  lemma DecryptPairIff(header: bytes, payload: bytes, call: nat, session: Session, message: bytes)
    ensures DecryptPair(header, payload, call, session) == Decrypted(message) <==>
              && Occurs(header, LENGTH)
              && LengthText(header).Some? && Atoi(TrimSpace(LengthText(header).value)) == (|message|, true)
              && exists signature, sealed ::
                   && RemoveAll(StripEnd(payload), OCTET_LINE) == Stream(signature, sealed) && |signature| < TWO32
                   && session(call, sealed, signature) == Some(message)
  {
    var data := RemoveAll(StripEnd(payload), OCTET_LINE);
    LengthTextOccurs(header);
    if DecryptStream(data, call, session) == Decrypted(message) {
      var n := FromLe32(data[..4]);
      FromLe32Injective(data[..4]);
      assert data == data[..4] + data[4..n + 4] + data[n + 4..];
      assert data == Stream(data[4..n + 4], data[n + 4..]) && |data[4..n + 4]| == n;
    }
    forall signature, sealed | data == Stream(signature, sealed) && |signature| < TWO32
      ensures DecryptStream(data, call, session) == Decrypted(message)
         <==> session(call, sealed, signature) == Some(message)
    {
      StreamVerdict(signature, sealed, call, session);
    }
  }

  /** The length is read after the first "Length=", and a second one ends it and is kept. */
  lemma LengthTextMeans(before: bytes, text: bytes, rest: bytes)
    requires !Occurs(before, LENGTH) && !Occurs(text, LENGTH)
    ensures LengthText(before) == None
    ensures LengthText(before + LENGTH + text) == Some(text)
    ensures LengthText(before + LENGTH + (text + LENGTH + rest)) == Some(text + LENGTH)
  {
    LengthIsUnique();
    SplitFree(before, LENGTH);
    SplitFree(text, LENGTH);
    SplitAfterFree(before, LENGTH, text);
    SplitAfterFree(text, LENGTH, rest);
    SplitAfterFree(before, LENGTH, text + LENGTH + rest);
  }

  lemma LengthIsUnique()
    ensures LastUnique(LENGTH)
  {
  }

  /** One end marker is removed from the end of a payload, and nothing else is. */
  lemma StripEndMeans(payload: bytes)
    ensures StripEnd(payload + END) == payload
    ensures !HasSuffix(payload, END) ==> StripEnd(payload) == payload
  {
    assert (payload + END)[|payload|..] == END;
    EndLength();
    assert (payload + END)[..|payload|] == payload;
  }

  lemma EndLength()
    ensures |END| == |MIME_BOUNDARY| + 4
  {
  }

  lemma LengthTextOccurs(header: bytes)
    ensures LengthText(header).Some? ==> Occurs(header, LENGTH)
  {
    if !Occurs(header, LENGTH) {
      SplitFree(header, LENGTH);
    }
  }

  /** Against a session with an integrity check, separability is exactly what the round trip needs; otherwise
      decryption fails and returns no plaintext at all. */
  lemma DecryptEncryptedIff(messages: seq<Message>, session: Session)
    requires LengthsFit(messages)
    requires Honest(session, messages, 0) && Strict(session, messages, 0)
    ensures Decrypt(Body(messages), session).Decrypted? <==> |messages| > 0 && AllSeparable(messages)
    ensures Decrypt(Body(messages), session).Decrypted? ==> Decrypt(Body(messages), session).message == Plain(messages)
  {
    BodyParts(messages);
    if |messages| > 0 {
      if AllSeparable(messages) {
        PairsDecrypt(messages, 0, session);
      } else {
        PairsFail(messages, 0, session);
      }
    }
  }

  /** A ciphertext that happens to contain the separator is lost, whoever sealed it. */
  lemma SeparatorInCiphertext(plain: bytes, signature: bytes, session: Session)
    requires |plain| < TWO63
    requires var messages := [Message(plain, Some(Wrapped(SEPARATOR, signature)))];
             Honest(session, messages, 0) && Strict(session, messages, 0)
    ensures !Decrypt(Body([Message(plain, Some(Wrapped(SEPARATOR, signature)))]), session).Decrypted?
  {
    var messages := [Message(plain, Some(Wrapped(SEPARATOR, signature)))];
    var stream := StreamOf(messages[0].wrapped);
    var k := 4 + |signature|;
    assert stream[k..k + |SEPARATOR|] == SEPARATOR;
    assert OccursAt(stream, SEPARATOR, k);
    assert !Separable(messages[0], true);
    DecryptEncryptedIff(messages, session);
  }
}
