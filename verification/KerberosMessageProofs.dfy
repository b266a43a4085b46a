/** What the Kerberos framer accepts, exactly; and that it opens whatever it seals. */
module KerberosMessageProofs {

  import opened Wrappers
  import opened Bytes
  import opened Multipart
  import opened KerberosGss
  import opened KerberosMessage

  // ----- the grammar of accepted bodies -----

  /** `metadata` is the three lines with these fields, with or without a final line break, declaring length `n`. */
  ghost predicate MetadataFields(mime: MimeParser, marker: bytes, maxLength: int, metadata: bytes, n: nat,
                                 protocol: bytes, contentType: bytes, digits: bytes, tail: bytes)
  {
    && metadata == Metadata(marker, protocol, contentType, digits) + tail
    && (tail == [] || tail == CRLF)
    && EqualFold(protocol, PROTOCOL)
    && !Occurs(contentType, CRLF) && !Occurs(contentType, LENGTH_TAG)
    && IsSoapMedia(mime(contentType))
    && ParseUint63(digits) == Some(n) && n <= maxLength
  }

  ghost predicate MetadataForm(mime: MimeParser, marker: bytes, maxLength: int, metadata: bytes, n: nat) {
    exists protocol, contentType, digits, tail ::
      MetadataFields(mime, marker, maxLength, metadata, n, protocol, contentType, digits, tail)
  }

  /** `body` is metadata, octet-stream line, little-endian 16, header, non-empty payload and terminal boundary. */
  ghost predicate BodyForm(framer: Framer, mime: MimeParser, boundary: bytes, body: bytes, metadata: bytes,
                           envelope: Envelope) {
    && body == metadata + SearchPattern(Marker(boundary)) + Stream(envelope.header, envelope.payload)
               + (Marker(boundary) + TERMINAL)
    && |envelope.header| == 16 && |envelope.payload| > 0
    && |metadata| <= 4096
    && |body| <= framer.maxPlaintextSize + 256 + 4096
    && MetadataForm(mime, Marker(boundary), framer.maxPlaintextSize, metadata, envelope.length)
  }

  // ----- lines -----

  lemma NoLineFeedIsFree(s: bytes)
    requires forall i :: 0 <= i < |s| ==> s[i] != '\n'
    ensures !Occurs(s, CRLF)
  {
    assert CRLF[1] == '\n';
    forall i ensures !OccursAt(s, CRLF, i) {
      if 0 <= i && i + 2 <= |s| {
        assert s[i..i + 2][1] == s[i + 1];
      }
    }
  }

  lemma OccursInConcat(a: bytes, b: bytes)
    ensures Occurs(a + b, CRLF) ==>
              || Occurs(a, CRLF) || Occurs(b, CRLF)
              || (|a| > 0 && |b| > 0 && a[|a| - 1] == '\r' && b[0] == '\n')
  {
    var s := a + b;
    if Occurs(s, CRLF) {
      var i :| OccursAt(s, CRLF, i);
      assert s[i] == s[i..i + 2][0] && s[i + 1] == s[i..i + 2][1];
      OccursBefore(a, b, CRLF, i);
      if i >= |a| {
        SliceOfTail(a, b, i - |a|, 2);
        assert OccursAt(b, CRLF, i - |a|);
      }
    }
  }

  lemma OccursInPiece(a: bytes, b: bytes, c: bytes, p: bytes)
    ensures Occurs(b, p) ==> Occurs(a + b + c, p)
  {
    if Occurs(b, p) {
      var i :| OccursAt(b, p, i);
      SliceOfTail(a, b, i, |p|);
      SliceOfHead(a + b, c, |a| + i, |p|);
      assert OccursAt(a + b + c, p, |a| + i);
    }
  }

  lemma WireTextIsPrintable()
    ensures forall i :: 0 <= i < |PROTOCOL| ==> 0x20 <= PROTOCOL[i] as int < 128
  {
  }

  /** The OriginalContent line contains no line break if its media type does not. */
  lemma ContentLineIsFree(contentType: bytes, digits: bytes)
    requires !Occurs(contentType, CRLF) && AllDigits(digits)
    ensures !Occurs(CONTENT_HEADER + OriginalContent(contentType, digits), CRLF)
  {
    var head := CONTENT_HEADER + TYPE_PREFIX;
    NoLineFeedIsFree(head);
    NoLineFeedIsFree(LENGTH_TAG + digits);
    assert head[|head| - 1] == '=';
    OccursInConcat(head, contentType);
    OccursInConcat(head + contentType, LENGTH_TAG + digits);
    assert CONTENT_HEADER + OriginalContent(contentType, digits) == head + contentType + (LENGTH_TAG + digits);
  }

  /** The lines of accepted metadata contain no line break. */
  lemma LinesAreFree(boundary: bytes, protocol: bytes)
    requires ValidBoundary(boundary) && EqualFold(protocol, PROTOCOL)
    ensures !Occurs(Marker(boundary), CRLF)
    ensures !Occurs(TYPE_HEADER + protocol, CRLF)
  {
    MarkerIsFree(boundary);
    WireTextIsPrintable();
    EqualFoldPrintable(protocol, PROTOCOL);
    TypeLineIsFree(protocol);
  }

  lemma MarkerIsFree(boundary: bytes)
    requires ValidBoundary(boundary)
    ensures !Occurs(Marker(boundary), CRLF)
  {
    NoLineFeedIsFree(Marker(boundary));
  }

  lemma TypeLineIsFree(protocol: bytes)
    requires forall i :: 0 <= i < |protocol| ==> 0x20 <= protocol[i] as int
    ensures !Occurs(TYPE_HEADER + protocol, CRLF)
  {
    NoLineFeedIsFree(TYPE_HEADER + protocol);
  }

  // ----- metadata -----

  lemma JoinThree(a: bytes, b: bytes, c: bytes, sep: bytes)
    ensures Join([a, b, c], sep) == a + sep + b + sep + c
  {
    assert [a, b, c][1..] == [b, c];
    assert [b, c][1..] == [c];
    assert Join([b, c], sep) == b + sep + c;
    assert a + sep + (b + sep + c) == a + sep + b + sep + c;
  }

  /** Neither border byte of the tag occurs inside it. */
  predicate Unbordered(tag: bytes) {
    && LastUnique(tag)
    && forall i :: 0 < i < |tag| ==> tag[i] != tag[0]
  }

  lemma TagOccurrence(prefix: bytes, text: bytes, tag: bytes, i: int)
    requires |tag| > 0 && tag[0] !in prefix && OccursAt(prefix + text, tag, i)
    ensures |prefix| <= i && OccursAt(text, tag, i - |prefix|)
  {
    var s := prefix + text;
    assert s[i] == s[i..i + |tag|][0] == tag[0];
    assert forall k :: 0 <= k < |prefix| ==> s[k] == prefix[k];
    SliceOfTail(prefix, text, i - |prefix|, |tag|);
  }

  /** A prefix without the first byte of the tag neither holds a tag nor begins one. */
  lemma TagAfterPrefix(prefix: bytes, text: bytes, tag: bytes)
    requires |tag| > 0 && tag[0] !in prefix
    ensures Occurs(prefix + text, tag) <==> Occurs(text, tag)
  {
    if Occurs(prefix + text, tag) {
      var i :| OccursAt(prefix + text, tag, i);
      TagOccurrence(prefix, text, tag, i);
    }
    if Occurs(text, tag) {
      var i :| OccursAt(text, tag, i);
      SliceOfTail(prefix, text, i, |tag|);
      assert OccursAt(prefix + text, tag, |prefix| + i);
    }
  }

  lemma TagInTail(tag: bytes, rest: bytes)
    requires Unbordered(tag)
    ensures Occurs(tag[1..] + rest, tag) <==> Occurs(rest, tag)
  {
    assert tag[0] !in tag[1..];
    TagAfterPrefix(tag[1..], rest, tag);
  }

  lemma CutTaggedSound(content: bytes, prefix: bytes, tag: bytes, text: bytes, rest: bytes)
    requires Unbordered(tag) && tag[0] !in prefix
    requires CutTagged(content, prefix, tag) == Some((text, rest))
    ensures content == prefix + text + tag + rest && !Occurs(text, tag) && !Occurs(rest, tag)
  {
    var separator := Index(content, tag);
    FourPieces(content, |prefix|, separator, separator + |tag|);
    FreeBeforeFirst(content, tag);
    TagAfterPrefix(prefix, text, tag);
    TagInTail(tag, rest);
  }

  lemma FourPieces(s: bytes, i: nat, j: nat, k: nat)
    requires i <= j < k <= |s|
    ensures s == s[..i] + s[i..j] + s[j..k] + s[k..]
    ensures s[..j] == s[..i] + s[i..j]
    ensures s[j + 1..] == s[j..k][1..] + s[k..]
  {
  }

  lemma CutTaggedComplete(prefix: bytes, tag: bytes, text: bytes, rest: bytes)
    requires Unbordered(tag) && tag[0] !in prefix
    requires !Occurs(text, tag) && !Occurs(rest, tag)
    ensures CutTagged(prefix + text + tag + rest, prefix, tag) == Some((text, rest))
  {
    TagAfterPrefix(prefix, text, tag);
    IndexAfterFree(prefix + text, tag, rest);
    TaggedCuts(prefix, text, tag, rest);
    TagInTail(tag, rest);
  }

  lemma TaggedCuts(prefix: bytes, text: bytes, tag: bytes, rest: bytes)
    requires |tag| > 0
    ensures (var (s, n) := (prefix + text + tag + rest, |prefix| + |text|);
             && s[..|prefix|] == prefix && s[|prefix|..n] == text
             && s[n + 1..] == tag[1..] + rest && s[n + |tag|..] == rest)
  {
  }

  lemma LengthTag()
    ensures Unbordered(LENGTH_TAG) && LENGTH_TAG[0] !in TYPE_PREFIX
  {
  }

  /** Cutting finds exactly the decompositions in which the length tag occurs once. */
  lemma CutOriginalContentIff(content: bytes, contentType: bytes, digits: bytes)
    ensures CutTagged(content, TYPE_PREFIX, LENGTH_TAG) == Some((contentType, digits))
       <==> content == OriginalContent(contentType, digits) && !Occurs(contentType, LENGTH_TAG) && !Occurs(digits,
       LENGTH_TAG)
  {
    LengthTag();
    if CutTagged(content, TYPE_PREFIX, LENGTH_TAG) == Some((contentType, digits)) {
      CutTaggedSound(content, TYPE_PREFIX, LENGTH_TAG, contentType, digits);
    }
    if !Occurs(contentType, LENGTH_TAG) && !Occurs(digits, LENGTH_TAG) {
      CutTaggedComplete(TYPE_PREFIX, LENGTH_TAG, contentType, digits);
    }
  }

  lemma DigitsHaveNoTag(digits: bytes)
    requires AllDigits(digits)
    ensures !Occurs(digits, LENGTH_TAG)
  {
    assert LENGTH_TAG[0] == ';';
    forall i ensures !OccursAt(digits, LENGTH_TAG, i) {
      if 0 <= i && i + |LENGTH_TAG| <= |digits| {
        assert digits[i..i + |LENGTH_TAG|][0] == digits[i];
      }
    }
  }

  /** parseKerberosMetadata accepts exactly the metadata grammar. */
  lemma ParseMetadataIff(mime: MimeParser, metadata: bytes, boundary: bytes, maxLength: int, n: nat)
    requires ValidBoundary(boundary)
    ensures ParseMetadata(mime, metadata, Marker(boundary), maxLength) == Ok(n)
       <==> MetadataForm(mime, Marker(boundary), maxLength, metadata, n)
  {
    if ParseMetadata(mime, metadata, Marker(boundary), maxLength) == Ok(n) {
      MetadataParsed(mime, metadata, boundary, maxLength, n);
    }
    if MetadataForm(mime, Marker(boundary), maxLength, metadata, n) {
      var protocol, contentType, digits, tail :|
        MetadataFields(mime, Marker(boundary), maxLength, metadata, n, protocol, contentType, digits, tail);
      MetadataParses(mime, metadata, boundary, maxLength, n, protocol, contentType, digits, tail);
    }
  }

  lemma MetadataParsed(mime: MimeParser, metadata: bytes, boundary: bytes, maxLength: int, n: nat)
    requires ValidBoundary(boundary)
    requires ParseMetadata(mime, metadata, Marker(boundary), maxLength) == Ok(n)
    ensures MetadataForm(mime, Marker(boundary), maxLength, metadata, n)
  {
    var marker := Marker(boundary);
    var text := TrimLineBreak(metadata);
    var lines := Split(text, CRLF);
    SplitThree(text);
    var tail := TailOfTrimmed(metadata);
    var protocol := CutHeader(lines[1], TYPE_HEADER).value;
    var content := CutHeader(lines[2], CONTENT_HEADER).value;
    var cut := CutTagged(content, TYPE_PREFIX, LENGTH_TAG).value;
    CutOriginalContentIff(content, cut.0, cut.1);
    LineOfFreeContent(cut.0, cut.1);
    assert MetadataFields(mime, marker, maxLength, metadata, n, protocol, cut.0, cut.1, tail);
  }

  lemma TailOfTrimmed(metadata: bytes) returns (tail: bytes)
    ensures metadata == TrimLineBreak(metadata) + tail && (tail == [] || tail == CRLF)
  {
    var text := TrimLineBreak(metadata);
    tail := metadata[|text|..];
    assert metadata == text + tail;
  }

  lemma SplitThree(text: bytes)
    ensures var lines := Split(text, CRLF);
            |lines| == 3 ==> text == ThreeLines(lines[0], lines[1], lines[2]) && forall k :: 0 <= k < 3 ==>
            !Occurs(lines[k], CRLF)
  {
    var lines := Split(text, CRLF);
    if |lines| == 3 {
      assert lines == [lines[0], lines[1], lines[2]];
      JoinThree(lines[0], lines[1], lines[2], CRLF);
    }
  }

  lemma LineOfFreeContent(contentType: bytes, digits: bytes)
    requires !Occurs(CONTENT_HEADER + OriginalContent(contentType, digits), CRLF)
    ensures !Occurs(contentType, CRLF)
  {
    assert CONTENT_HEADER + OriginalContent(contentType, digits)
        == (CONTENT_HEADER + TYPE_PREFIX) + contentType + (LENGTH_TAG + digits);
    OccursInPiece(CONTENT_HEADER + TYPE_PREFIX, contentType, LENGTH_TAG + digits, CRLF);
  }

  lemma TrimMetadata(text: bytes, tail: bytes)
    requires |text| > 0 && text[|text| - 1] != '\n'
    requires tail == [] || tail == CRLF
    ensures TrimLineBreak(text + tail) == text
  {
    var metadata := text + tail;
    if tail == [] {
      assert metadata == text;
      assert |text| >= 2 ==> text[|text| - 2..][1] == text[|text| - 1];
    } else {
      assert metadata[|metadata| - 2..] == CRLF;
      assert metadata[..|metadata| - 2] == text;
    }
  }

  lemma SplitThreeLines(first: bytes, second: bytes, third: bytes, tail: bytes)
    requires !Occurs(first, CRLF) && !Occurs(second, CRLF) && !Occurs(third, CRLF)
    requires |third| > 0 && third[|third| - 1] != '\n'
    requires tail == [] || tail == CRLF
    ensures Split(TrimLineBreak(ThreeLines(first, second, third) + tail), CRLF) == [first, second, third]
  {
    TrimMetadata(ThreeLines(first, second, third), tail);
    JoinThree(first, second, third, CRLF);
    SplitJoin([first, second, third], CRLF);
  }

  lemma CutPrinted(prefix: bytes, rest: bytes)
    ensures CutHeader(prefix + rest, prefix) == Some(rest)
  {
    assert (prefix + rest)[..|prefix|] == prefix;
    assert (prefix + rest)[|prefix|..] == rest;
  }

  /** parseKerberosMetadata, once its lines and its OriginalContent value are known. */
  lemma ParseFromLines(mime: MimeParser, metadata: bytes, marker: bytes, maxLength: int, n: nat,
                       protocol: bytes, content: bytes, contentType: bytes, digits: bytes)
    requires Split(TrimLineBreak(metadata), CRLF) == [marker, TYPE_HEADER + protocol, CONTENT_HEADER + content]
    requires EqualFold(protocol, PROTOCOL) && IsSoapMedia(mime(contentType))
    requires CutTagged(content, TYPE_PREFIX, LENGTH_TAG) == Some((contentType, digits))
    requires ParseUint63(digits) == Some(n) && n <= maxLength
    ensures ParseMetadata(mime, metadata, marker, maxLength) == Ok(n)
  {
    var lines := Split(TrimLineBreak(metadata), CRLF);
    CutLines(lines, marker, TYPE_HEADER, protocol, CONTENT_HEADER, content);
    ContentParses(mime, content, maxLength, n, contentType, digits);
  }

  lemma CutLines(lines: seq<bytes>, marker: bytes, name1: bytes, value1: bytes, name2: bytes, value2: bytes)
    requires lines == [marker, name1 + value1, name2 + value2]
    ensures |lines| == 3 && lines[0] == marker
    ensures CutHeader(lines[1], name1) == Some(value1) && CutHeader(lines[2], name2) == Some(value2)
  {
    CutPrinted(name1, value1);
    CutPrinted(name2, value2);
  }

  lemma ContentParses(mime: MimeParser, content: bytes, maxLength: int, n: nat, contentType: bytes, digits: bytes)
    requires CutTagged(content, TYPE_PREFIX, LENGTH_TAG) == Some((contentType, digits))
    requires IsSoapMedia(mime(contentType)) && ParseUint63(digits) == Some(n) && n <= maxLength
    ensures ParseOriginalContent(mime, content, maxLength) == Ok(n)
  {
  }

  lemma MetadataParses(mime: MimeParser, metadata: bytes, boundary: bytes, maxLength: int, n: nat,
                       protocol: bytes, contentType: bytes, digits: bytes, tail: bytes)
    requires ValidBoundary(boundary)
    requires MetadataFields(mime, Marker(boundary), maxLength, metadata, n, protocol, contentType, digits, tail)
    ensures ParseMetadata(mime, metadata, Marker(boundary), maxLength) == Ok(n)
  {
    var content := OriginalContent(contentType, digits);
    var third := CONTENT_HEADER + content;
    assert third[|third| - 1] == digits[|digits| - 1];
    LinesAreFree(boundary, protocol);
    ContentLineIsFree(contentType, digits);
    SplitThreeLines(Marker(boundary), TYPE_HEADER + protocol, third, tail);
    DigitsHaveNoTag(digits);
    CutOriginalContentIff(content, contentType, digits);
    ParseFromLines(mime, metadata, Marker(boundary), maxLength, n, protocol, content, contentType, digits);
  }

  // ----- the search for the end of the metadata -----

  lemma PeelLine(line: bytes, rest: bytes, follow: bytes, q: int)
    requires !Occurs(line, CRLF)
    requires OccursAt(line + CRLF + rest, CRLF + follow, q)
    ensures (q == |line| && HasPrefix(rest, follow))
            || (|line| + 2 <= q && OccursAt(rest, CRLF + follow, q - |line| - 2))
  {
    PeelPiece(line, CRLF, rest, follow, q);
  }

  lemma PeelPiece(line: bytes, sep: bytes, rest: bytes, follow: bytes, q: int)
    requires LastUnique(sep) && !Occurs(line, sep)
    requires OccursAt(line + sep + rest, sep + follow, q)
    ensures (q == |line| && HasPrefix(rest, follow))
            || (|line| + |sep| <= q && OccursAt(rest, sep + follow, q - |line| - |sep|))
  {
    var head, n := line + sep, |sep| + |follow|;
    SliceParts(head + rest, q, |sep|, |follow|);
    assert (sep + follow)[..|sep|] == sep && (sep + follow)[|sep|..] == follow;
    OccurrenceAfter(line, sep, rest, q);
    if q == |line| {
      SliceOfTail(head, rest, 0, |follow|);
    } else {
      SliceOfTail(head, rest, q - |head|, n);
    }
  }

  predicate DiffersAt(a: bytes, b: bytes, k: nat) {
    k < |a| && k < |b| && a[k] != b[k]
  }

  lemma DifferentPrefix(a: bytes, rest: bytes, p: bytes, k: nat)
    requires DiffersAt(a, p, k)
    ensures !HasPrefix(a + rest, p)
  {
    var s := a + rest;
    if |p| <= |s| {
      assert s[..|p|][k] == s[k] == a[k];
    }
  }

  /** Three lines and what follows them, one line at a time. */
  lemma FromTheLeft(a: bytes, b: bytes, c: bytes, tail: bytes, end: bytes, sep: bytes)
    ensures a + sep + b + sep + c + tail + end == a + sep + (b + sep + (c + tail + end))
    ensures b + sep + (c + tail + end) == b + (sep + (c + tail + end))
    ensures c + tail + end == c + (tail + end)
  {
  }

  /** If neither the second line, nor the third, nor the marker starts like `follow`, then `follow` comes after no
      line break before the marker that ends the three lines. */
  lemma LineSearch(marker: bytes, line1: bytes, line2: bytes, tail: bytes, rest: bytes, follow: bytes,
                   k1: nat, k2: nat, q: int)
    requires !Occurs(marker, CRLF) && !Occurs(line1, CRLF) && !Occurs(line2, CRLF)
    requires DiffersAt(line1, follow, k1) && DiffersAt(line2, follow, k2) && DiffersAt(marker, follow, 0)
    requires marker[0] != '\n' && (tail == [] || tail == CRLF)
    requires OccursAt(ThreeLines(marker, line1, line2) + tail + (marker + CRLF + rest), CRLF + follow, q)
    ensures |ThreeLines(marker, line1, line2) + tail| + |marker| <= q
  {
    var end := marker + CRLF + rest;
    var after2 := line2 + tail + end;
    var after1 := line1 + CRLF + after2;
    FromTheLeft(marker, line1, line2, tail, end, CRLF);
    PeelLine(marker, after1, follow, q);
    DifferentPrefix(line1, CRLF + after2, follow, k1);
    var q1 := q - |marker| - 2;
    PeelLine(line1, after2, follow, q1);
    DifferentPrefix(line2, tail + end, follow, k2);
    LastLineSearch(marker, line2, tail, rest, follow, q1 - |line1| - 2);
  }

  lemma LastLineSearch(marker: bytes, line2: bytes, tail: bytes, rest: bytes, follow: bytes, q: int)
    requires !Occurs(marker, CRLF) && !Occurs(line2, CRLF)
    requires DiffersAt(marker, follow, 0) && marker[0] != '\n'
    requires tail == [] || tail == CRLF
    requires OccursAt(line2 + tail + (marker + CRLF + rest), CRLF + follow, q)
    ensures |line2 + tail + marker| <= q
  {
    var end := marker + CRLF + rest;
    if tail == [] {
      OccursInConcat(line2, marker);
      assert line2 + tail + end == (line2 + marker) + CRLF + rest;
      PeelLine(line2 + marker, rest, follow, q);
    } else {
      assert line2 + tail + end == line2 + CRLF + end;
      PeelLine(line2, end, follow, q);
      assert end == marker + (CRLF + rest);
      DifferentPrefix(marker, CRLF + rest, follow, 0);
      PeelLine(marker, rest, follow, q - |line2| - 2);
    }
  }

  lemma ProtocolHead()
    ensures forall i :: 0 <= i < 13 ==> Lower(PROTOCOL[i]) != 's' && Lower(PROTOCOL[i]) != 'k'
    ensures Lower(PROTOCOL[12]) == 'h'
  {
  }

  lemma OctetLine()
    ensures |TYPE_HEADER| == 15 && |OCTET_LINE| > 27 && OCTET_LINE[27] == 'o'
    ensures DiffersAt(CONTENT_HEADER, OCTET_LINE, 1)
    ensures OCTET_LINE[0] == '\t'
  {
  }

  /** Neither metadata line nor the marker can be taken for the octet-stream line. */
  lemma LinesAreNotOctetLine(boundary: bytes, protocol: bytes, content: bytes)
    requires EqualFold(protocol, PROTOCOL)
    ensures DiffersAt(TYPE_HEADER + protocol, OCTET_LINE, 27)
    ensures DiffersAt(CONTENT_HEADER + content, OCTET_LINE, 1)
    ensures DiffersAt(Marker(boundary), OCTET_LINE, 0) && Marker(boundary)[0] == '-'
  {
    ProtocolHead();
    EqualFoldPrefix(protocol, PROTOCOL, 13);
    OctetLine();
    assert (TYPE_HEADER + protocol)[27] == protocol[12];
    assert (CONTENT_HEADER + content)[1] == CONTENT_HEADER[1];
  }

  lemma PatternTail(s: bytes, marker: bytes, follow: bytes, i: int)
    requires OccursAt(s, marker + CRLF + follow, i)
    ensures OccursAt(s, CRLF + follow, i + |marker|)
  {
    var q := i + |marker|;
    assert s[q..q + 2 + |follow|] == s[i..i + |marker + CRLF + follow|][|marker|..] == CRLF + follow;
  }

  /** The first occurrence of the search pattern is the one that ends the metadata, whatever follows it. */
  lemma FirstMatch(mime: MimeParser, boundary: bytes, maxLength: int, metadata: bytes, n: nat, rest: bytes)
    requires ValidBoundary(boundary)
    requires MetadataForm(mime, Marker(boundary), maxLength, metadata, n)
    ensures Index(metadata + SearchPattern(Marker(boundary)) + rest, SearchPattern(Marker(boundary))) == |metadata|
  {
    var marker := Marker(boundary);
    var protocol, contentType, digits, tail :|
      MetadataFields(mime, marker, maxLength, metadata, n, protocol, contentType, digits, tail);
    var content := OriginalContent(contentType, digits);
    LinesAreFree(boundary, protocol);
    ContentLineIsFree(contentType, digits);
    LinesAreNotOctetLine(boundary, protocol, content);
    FirstMatchOfLines(marker, TYPE_HEADER + protocol, CONTENT_HEADER + content, tail, rest, OCTET_LINE, 27, 1);
  }

  lemma FirstMatchOfLines(marker: bytes, line1: bytes, line2: bytes, tail: bytes, rest: bytes, follow: bytes, k1: nat,
                          k2: nat)
    requires !Occurs(marker, CRLF) && !Occurs(line1, CRLF) && !Occurs(line2, CRLF)
    requires DiffersAt(line1, follow, k1) && DiffersAt(line2, follow, k2) && DiffersAt(marker, follow, 0)
    requires marker[0] != '\n' && (tail == [] || tail == CRLF)
    ensures var metadata := ThreeLines(marker, line1, line2) + tail;
            var pattern := marker + CRLF + follow;
            Index(metadata + pattern + rest, pattern) == |metadata|
  {
    var metadata := ThreeLines(marker, line1, line2) + tail;
    var pattern := marker + CRLF + follow;
    var body := metadata + pattern + rest;
    assert OccursAt(body, pattern, |metadata|);
    var i := Index(body, pattern);
    PatternTail(body, marker, follow, i);
    assert body == metadata + (marker + CRLF + (follow + rest));
    LineSearch(marker, line1, line2, tail, follow + rest, follow, k1, k2, i + |marker|);
  }

  // ----- what `open` accepts -----

  lemma SuffixAfter(text: bytes, suffix: bytes)
    ensures HasSuffix(text + suffix, suffix)
  {
    assert (text + suffix)[|text|..] == suffix;
  }

  /** Cutting a stream undoes printing it, and finds nothing else. */
  lemma CutStreamIff(stream: bytes, header: bytes, payload: bytes)
    requires |stream| >= 4
    ensures CutStream(stream) == Ok((header, payload))
       <==> stream == Stream(header, payload) && |header| == HEADER_LENGTH && |payload| > 0
  {
    if CutStream(stream).Ok? {
      FromLe32Injective(stream[..4]);
      assert stream == stream[..4] + stream[4..4 + HEADER_LENGTH] + stream[4 + HEADER_LENGTH..];
    }
    if stream == Stream(header, payload) && |header| == HEADER_LENGTH {
      assert stream[..4] == Le32(HEADER_LENGTH);
      Le32RoundTrip(HEADER_LENGTH);
      assert stream[4..4 + HEADER_LENGTH] == header && stream[4 + HEADER_LENGTH..] == payload;
    }
  }

  lemma CutBodySound(body: bytes, pattern: bytes, terminal: bytes)
    ensures var cut := CutBody(body, pattern, terminal);
            cut.Ok? ==> body == cut.value.0 + pattern + cut.value.1 + terminal && |cut.value.0| <= MAX_METADATA_SIZE
  {
    var cut := CutBody(body, pattern, terminal);
    if cut.Ok? {
      var i := Index(body, pattern);
      CutAround(body, i, i + |pattern|, |body| - |terminal|);
    }
  }

  lemma CutAround(s: bytes, i: nat, j: nat, k: nat)
    requires i <= j <= k <= |s|
    ensures s == s[..i] + s[i..j] + s[j..k] + s[k..]
    ensures s[j..][k - j..] == s[k..]
  {
  }

  lemma CutBodyComplete(metadata: bytes, pattern: bytes, stream: bytes, terminal: bytes)
    requires |metadata| <= MAX_METADATA_SIZE
    requires Index(metadata + pattern + (stream + terminal), pattern) == |metadata|
    ensures CutBody(metadata + pattern + stream + terminal, pattern, terminal) == Ok((metadata, stream))
  {
    JoinedCuts(metadata, pattern, stream, terminal);
  }

  /** Cutting a text at the joints of its four pieces. */
  lemma JoinedCuts(a: bytes, b: bytes, c: bytes, d: bytes)
    ensures (var s := a + b + c + d;
             && s == a + b + (c + d)
             && s[..|a|] == a
             && s[|a| + |b|..|s| - |d|] == c
             && HasSuffix(s[|a| + |b|..], d))
  {
    var s := a + b + c + d;
    Associate(a, b, c, d);
    CutJoint(a, b + (c + d));
    CutJoint(a + b, c + d);
    CutJoint(a + b + c, d);
    CutJoint(a + b, c);
    SuffixAfter(c, d);
    SliceIsCut(s, |a| + |b|, |s| - |d|);
  }

  lemma Associate(a: bytes, b: bytes, c: bytes, d: bytes)
    ensures a + b + c + d == a + b + (c + d) == a + (b + (c + d))
  {
  }

  lemma CutJoint(a: bytes, b: bytes)
    ensures (a + b)[..|a|] == a && (a + b)[|a|..] == b
  {
  }

  lemma SliceIsCut(s: bytes, i: nat, j: nat)
    requires i <= j <= |s|
    ensures s[i..j] == s[..j][i..]
  {
  }

  lemma ExtractSound(framer: Framer, mime: MimeParser, boundary: bytes, body: bytes, envelope: Envelope)
    requires ValidBoundary(boundary)
    requires Extract(framer, mime, boundary, body) == Ok(envelope)
    ensures exists metadata :: BodyForm(framer, mime, boundary, body, metadata, envelope)
  {
    var marker := Marker(boundary);
    CutBodySound(body, SearchPattern(marker), marker + TERMINAL);
    var (metadata, stream) := CutBody(body, SearchPattern(marker), marker + TERMINAL).value;
    ParseMetadataIff(mime, metadata, boundary, framer.maxPlaintextSize, envelope.length);
    CutStreamIff(stream, envelope.header, envelope.payload);
    assert BodyForm(framer, mime, boundary, body, metadata, envelope);
  }

  lemma ExtractComplete(framer: Framer, mime: MimeParser, boundary: bytes, body: bytes, metadata: bytes,
                        envelope: Envelope)
    requires ValidBoundary(boundary)
    requires BodyForm(framer, mime, boundary, body, metadata, envelope)
    ensures Extract(framer, mime, boundary, body) == Ok(envelope)
  {
    var marker := Marker(boundary);
    var stream := Stream(envelope.header, envelope.payload);
    FirstMatch(mime, boundary, framer.maxPlaintextSize, metadata, envelope.length, stream + (marker + TERMINAL));
    CutBodyComplete(metadata, SearchPattern(marker), stream, marker + TERMINAL);
    ParseMetadataIff(mime, metadata, boundary, framer.maxPlaintextSize, envelope.length);
    CutStreamIff(stream, envelope.header, envelope.payload);
  }

  /** `body` is a well-formed protected response over this boundary, whose token the context opens as `message`, and
      the declared length is the true one. */
  ghost predicate Accepts(framer: Framer, mime: MimeParser, boundary: bytes, body: bytes, context: GssContext,
                          message: bytes) {
    exists metadata, envelope ::
      && BodyForm(framer, mime, boundary, body, metadata, envelope)
      && Unwrap(context, envelope.header, envelope.payload) == Ok(message)
      && |message| == envelope.length
  }

  lemma AcceptsIff(framer: Framer, mime: MimeParser, boundary: bytes, body: bytes, context: GssContext, message: bytes)
    requires ValidBoundary(boundary)
    ensures Accepts(framer, mime, boundary, body, context, message) <==>
              && var extracted := Extract(framer, mime, boundary, body);
              && extracted.Ok?
              && Unwrap(context, extracted.value.header, extracted.value.payload) == Ok(message)
              && |message| == extracted.value.length
  {
    var extracted := Extract(framer, mime, boundary, body);
    if extracted.Ok? {
      ExtractSound(framer, mime, boundary, body, extracted.value);
    }
    forall metadata, envelope | BodyForm(framer, mime, boundary, body, metadata, envelope)
      ensures extracted == Ok(envelope)
    {
      ExtractComplete(framer, mime, boundary, body, metadata, envelope);
    }
  }

  /** `open` after the content-type checks. */
  lemma OpenUnfolds(framer: Framer, mime: MimeParser, contentType: bytes, body: bytes, adapter: Option<GssContext>,
                    message: bytes)
    ensures Open(framer, mime, contentType, body, adapter) == Ok(message) <==>
              && adapter.Some?
              && mime(contentType).Some?
              && var boundary := Param(mime(contentType).value, "boundary");
              && IsProtected(mime(contentType).value, boundary)
              && var extracted := Extract(framer, mime, boundary, body);
              && extracted.Ok?
              && Unwrap(adapter.value, extracted.value.header, extracted.value.payload) == Ok(message)
              && |message| == extracted.value.length
  {
  }

  /** `open` accepts exactly the well-formed protected responses, and returns the plaintext their token seals. In
      particular the ciphertext may contain the marker, the octet-stream line and the terminal boundary. */
  lemma OpenIff(framer: Framer, mime: MimeParser, contentType: bytes, body: bytes, adapter: Option<GssContext>,
                message: bytes)
    ensures Open(framer, mime, contentType, body, adapter) == Ok(message) <==>
              && adapter.Some?
              && mime(contentType).Some?
              && var boundary := Param(mime(contentType).value, "boundary");
              && IsProtected(mime(contentType).value, boundary)
              && Accepts(framer, mime, boundary, body, adapter.value, message)
  {
    OpenUnfolds(framer, mime, contentType, body, adapter, message);
    if adapter.Some? && mime(contentType).Some? {
      var boundary := Param(mime(contentType).value, "boundary");
      if ValidBoundary(boundary) {
        AcceptsIff(framer, mime, boundary, body, adapter.value, message);
      }
    }
  }

  /** Whatever is accepted is short enough: the plaintext fits the configured limit. */
  lemma OpenedFits(framer: Framer, mime: MimeParser, contentType: bytes, body: bytes, adapter: Option<GssContext>)
    ensures var r := Open(framer, mime, contentType, body, adapter);
            r.Ok? ==> |r.value| <= framer.maxPlaintextSize && |r.value| < TWO63
  {
    var r := Open(framer, mime, contentType, body, adapter);
    if r.Ok? {
      OpenIff(framer, mime, contentType, body, adapter, r.value);
    }
  }

  // ----- round trip -----

  lemma WireLengths()
    ensures |PROTOCOL| == 41 && |SOAP_TYPE| == 34 && |TYPE_HEADER| == 15 && |CONTENT_HEADER| == 18
    ensures |TYPE_PREFIX| == 5 && |LENGTH_TAG| == 8 && |OCTET_LINE| == 41 && |TERMINAL| == 4
  {
  }

  lemma SoapTypeIsFree()
    ensures !Occurs(SOAP_TYPE, CRLF) && !Occurs(SOAP_TYPE, LENGTH_TAG)
  {
    assert forall i :: 0 <= i < |SOAP_TYPE| ==> SOAP_TYPE[i] != '\n' && SOAP_TYPE[i] != 'L';
    NoLineFeedIsFree(SOAP_TYPE);
    assert LENGTH_TAG[1] == 'L';
    forall i ensures !OccursAt(SOAP_TYPE, LENGTH_TAG, i) {
      if 0 <= i && i + |LENGTH_TAG| <= |SOAP_TYPE| {
        assert SOAP_TYPE[i..i + |LENGTH_TAG|][1] == SOAP_TYPE[i + 1];
      }
    }
  }

  lemma ProtocolFolds()
    ensures EqualFold(PROTOCOL, PROTOCOL)
  {
    WireTextIsPrintable();
    EqualFoldReflexive(PROTOCOL);
  }

  lemma TenToTheNineteenth()
    ensures TWO63 <= Pow10(19)
  {
    assert Pow10(10) == 10_000_000_000;
    assert Pow10(19) == 10_000_000_000_000_000_000;
  }

  /** The printed metadata is well formed, and its size does not depend on the message beyond 19 digits. */
  lemma PrintedMetadata(mime: MimeParser, boundary: bytes, maxLength: int, n: nat)
    requires ValidBoundary(boundary) && n <= maxLength && n < TWO63
    requires IsSoapMedia(mime(SOAP_TYPE))
    ensures var metadata := Metadata(Marker(boundary), PROTOCOL, SOAP_TYPE, Decimal(n)) + CRLF;
            MetadataForm(mime, Marker(boundary), maxLength, metadata, n) && |metadata| <= 218
  {
    var metadata := Metadata(Marker(boundary), PROTOCOL, SOAP_TYPE, Decimal(n)) + CRLF;
    SoapTypeIsFree();
    ProtocolFolds();
    DecimalValue(n);
    TenToTheNineteenth();
    DecimalLength(n, 19);
    WireLengths();
    assert MetadataFields(mime, Marker(boundary), maxLength, metadata, n, PROTOCOL, SOAP_TYPE, Decimal(n), CRLF);
  }

  /** Every sealed body fits the size and metadata limits that `open` enforces. */
  lemma SealedBodyForm(framer: Framer, mime: MimeParser, boundary: bytes, n: nat, header: bytes, payload: bytes)
    requires ValidBoundary(boundary) && n <= framer.maxPlaintextSize && n < TWO63
    requires IsSoapMedia(mime(SOAP_TYPE))
    requires |header| == HEADER_LENGTH && |payload| > 0
             && |header| + |payload| <= framer.maxPlaintextSize + MAX_WRAP_OVERHEAD
    ensures BodyForm(framer, mime, boundary, SealedBody(boundary, n, header, payload),
                     Metadata(Marker(boundary), PROTOCOL, SOAP_TYPE, Decimal(n)) + CRLF, Envelope(n, header, payload))
  {
    var marker := Marker(boundary);
    var metadata := Metadata(marker, PROTOCOL, SOAP_TYPE, Decimal(n)) + CRLF;
    PrintedMetadata(mime, boundary, framer.maxPlaintextSize, n);
    WireLengths();
    PartOfMetadata(metadata, marker, OCTET_LINE, Stream(header, payload), TERMINAL);
  }

  lemma PartOfMetadata(metadata: bytes, marker: bytes, line: bytes, stream: bytes, terminal: bytes)
    ensures metadata + marker + CRLF + line + stream + marker + terminal
         == metadata + (marker + CRLF + line) + stream + (marker + terminal)
  {
  }

  /** Framer round trip: over every valid boundary and every token, whatever delimiters the payload contains, a sealed
      body opens to the original message under any framer whose limit is at least the message length. */
  lemma SealedOpens(framer: Framer, mime: MimeParser, contentType: bytes, boundary: bytes,
                    message: bytes, sender: GssContext, receiver: GssContext)
    requires |message| <= framer.maxPlaintextSize && |message| < TWO63
    requires mime(contentType).Some? && IsProtected(mime(contentType).value, boundary)
    requires IsSoapMedia(mime(SOAP_TYPE))
    requires Wrap(sender, message).Ok?
    requires |sender.wrap(message, true).value| <= |message| + MAX_WRAP_OVERHEAD
    requires receiver.unwrap(sender.wrap(message, true).value) == Ok((message, true))
    ensures var (header, payload) := Wrap(sender, message).value;
            var body := SealedBody(boundary, |message|, header, payload);
            Open(framer, mime, contentType, body, Some(receiver)) == Ok(message)
  {
    var (header, payload) := Wrap(sender, message).value;
    var body := SealedBody(boundary, |message|, header, payload);
    SealedBodyForm(framer, mime, boundary, |message|, header, payload);
    WrapUnwrap(sender, receiver, message);
    OpenIff(framer, mime, contentType, body, Some(receiver), message);
  }

  /** Every sealed token makes the whole way: it is split, its parts fit the overhead that sealing allows, and the body
      printed around them opens to the message. */
  lemma SealedTokenOpens(framer: Framer, mime: MimeParser, contentType: bytes, boundary: bytes,
                         message: bytes, token: bytes, sender: GssContext, receiver: GssContext)
    requires SealedToken(token) && |token| <= |message| + MAX_WRAP_OVERHEAD
    requires sender.wrap(message, true) == Ok(token) && receiver.unwrap(token) == Ok((message, true))
    requires |message| <= framer.maxPlaintextSize && |message| < TWO63
    requires mime(contentType).Some? && IsProtected(mime(contentType).value, boundary)
    requires IsSoapMedia(mime(SOAP_TYPE))
    ensures Wrap(sender, message) == Ok((token[..16], token[16..]))
    ensures (var body := SealedBody(boundary, |message|, token[..16], token[16..]);
             Open(framer, mime, contentType, body, Some(receiver)) == Ok(message))
  {
    assert token[..2][0] == token[0] && token[..2][1] == token[1];
    var r := Wrap(sender, message).value;
    assert r.0 == (r.0 + r.1)[..16] && r.1 == (r.0 + r.1)[16..];
    SealedOpens(framer, mime, contentType, boundary, message, sender, receiver);
  }

  // ----- the media types, spelled out -----

  /** The media type that OriginalContent must name has exactly one parameter, and that is its character set. */
  lemma SoapMediaIff(media: Option<Media>)
    ensures IsSoapMedia(media) <==>
              && media.Some?
              && EqualFold(media.value.kind, "application/soap+xml")
              && exists charset :: media.value.params == map["charset" := charset] && EqualFold(charset, "UTF-8")
  {
    CharsetIsNotEmpty();
    if IsSoapMedia(media) {
      OneKey(media.value.params, "charset");
    } else if media.Some? {
      forall charset: bytes | media.value.params == map["charset" := charset]
        ensures EqualFold(media.value.kind, SOAP_XML) ==> !EqualFold(charset, UTF8)
      {
        assert Param(media.value, "charset") == charset;
      }
    }
  }

  lemma CharsetIsNotEmpty()
    ensures !EqualFold([], UTF8)
  {
  }

  lemma OneKey(params: map<bytes, bytes>, name: bytes)
    requires name in params && |params| == 1
    ensures params == map[name := params[name]]
  {
    var others := params.Keys - {name};
    assert |others| == 0;
    assert params.Keys == {name};
  }

  /** The content type of a protected response names the protocol and a boundary of 1 to 70 printable characters that
      does not end in a space. */
  lemma ProtectedIff(media: Media, boundary: bytes)
    ensures IsProtected(media, boundary) <==>
              && EqualFold(media.kind, "multipart/encrypted")
              && "protocol" in media.params && EqualFold(media.params["protocol"], PROTOCOL)
              && "boundary" in media.params && media.params["boundary"] == boundary
              && 1 <= |boundary| <= 70 && boundary[|boundary| - 1] != ' '
              && forall i :: 0 <= i < |boundary| ==> ' ' <= boundary[i] <= '~'
  {
    ProtocolIsNotEmpty();
  }

  lemma ProtocolIsNotEmpty()
    ensures !EqualFold([], PROTOCOL)
  {
  }

  /** A parser that reads every text as the SOAP media type. */
  function SoapMime(text: bytes): Option<Media> {
    Some(Media(SOAP_XML, map["charset" := UTF8]))
  }

  lemma SoapMimeIsSoap(text: bytes)
    ensures IsSoapMedia(SoapMime(text))
  {
    var media := SoapMime(text).value;
    var name: bytes := "charset";
    assert media.params == map[name := UTF8];
    assert Param(media, name) == UTF8;
    SoapConstantsFold();
  }

  lemma SoapConstantsAreAscii()
    ensures Ascii(SOAP_XML) && Ascii(UTF8)
  {
  }

  lemma SoapConstantsFold()
    ensures EqualFold(SOAP_XML, SOAP_XML) && EqualFold(UTF8, UTF8)
  {
    SoapConstantsAreAscii();
    EqualFoldReflexive(SOAP_XML);
    EqualFoldReflexive(UTF8);
  }

  lemma SealedExtracts(framer: Framer, mime: MimeParser, boundary: bytes, n: nat, header: bytes, payload: bytes)
    requires ValidBoundary(boundary) && n <= framer.maxPlaintextSize && n < TWO63
    requires IsSoapMedia(mime(SOAP_TYPE))
    requires |header| == HEADER_LENGTH && |payload| > 0
             && |header| + |payload| <= framer.maxPlaintextSize + MAX_WRAP_OVERHEAD
    ensures Extract(framer, mime, boundary, SealedBody(boundary, n, header, payload))
         == Ok(Envelope(n, header, payload))
  {
    SealedBodyForm(framer, mime, boundary, n, header, payload);
    ExtractComplete(framer, mime, boundary, SealedBody(boundary, n, header, payload),
                    Metadata(Marker(boundary), PROTOCOL, SOAP_TYPE, Decimal(n)) + CRLF, Envelope(n, header, payload));
  }

  /** Equal sealed bodies have equal lengths, headers and payloads. */
  lemma SealedBodyInjective(boundary: bytes, n1: nat, header1: bytes, payload1: bytes, n2: nat, header2: bytes,
                            payload2: bytes)
    requires ValidBoundary(boundary) && n1 < TWO63 && n2 < TWO63
    requires |header1| == HEADER_LENGTH && |payload1| > 0 && |header2| == HEADER_LENGTH && |payload2| > 0
    requires SealedBody(boundary, n1, header1, payload1) == SealedBody(boundary, n2, header2, payload2)
    ensures n1 == n2 && header1 == header2 && payload1 == payload2
  {
    SoapMimeIsSoap(SOAP_TYPE);
    var framer := Framer(n1 + n2 + |payload1| + |payload2|);
    var body := SealedBody(boundary, n1, header1, payload1);
    SealedExtracts(framer, SoapMime, boundary, n1, header1, payload1);
    SealedExtracts(framer, SoapMime, boundary, n2, header2, payload2);
  }
}
