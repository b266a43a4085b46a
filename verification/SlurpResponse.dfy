/** response.go, ParseSlurpOutputErrResponse: a Receive response, demultiplexed into
    standard output and standard error. */
module SlurpResponse {

  import opened Wrappers
  import opened Bytes

  /** An rsp:Stream element: its Name attribute and its text. */
  datatype Stream = Stream(name: bytes, text: bytes)

  /** A response as the XML layer sees it: its Stream elements in document order, whether some element is in the Done
      state, and the text of the first ExitCode element. */
  datatype Document = Malformed | Document(streams: seq<Stream>, done: bool, exitCode: Option<bytes>)

  /** The base64 decoder.  Its error is ignored, so it stands for the bytes it returns on any text. */
  type Decoder = bytes -> bytes

  const STDOUT: bytes := "stdout"
  const STDERR: bytes := "stderr"

  /** What the path //rsp:Stream[@Name='name'] selects. */
  function Select(streams: seq<Stream>, name: bytes): seq<Stream> {
    if |streams| == 0 then []
    else if streams[0].name == name then [streams[0]] + Select(streams[1..], name)
    else Select(streams[1..], name)
  }

  /** The bytes of one stream: the decoded texts of its elements, in order. */
  function Content(decode: Decoder, streams: seq<Stream>, name: bytes): bytes {
    if |streams| == 0 then []
    else if streams[0].name == name then decode(streams[0].text) + Content(decode, streams[1..], name)
    else Content(decode, streams[1..], name)
  }

  /** The exit code that a well-formed response carries: none before Done, and zero when it is absent. */
  function ExitCodeOf(doc: Document): int
    requires doc.Document?
  {
    if doc.done && doc.exitCode.Some? then Atoi(doc.exitCode.value).0 else 0
  }

  /** The decoded texts of selected elements. */
  function Decoded(decode: Decoder, nodes: seq<Stream>): bytes {
    if |nodes| == 0 then [] else decode(nodes[0].text) + Decoded(decode, nodes[1..])
  }

  lemma {:induction false} ContentSelects(decode: Decoder, streams: seq<Stream>, name: bytes)
    ensures Content(decode, streams, name) == Decoded(decode, Select(streams, name))
  {
    if |streams| > 0 {
      ContentSelects(decode, streams[1..], name);
      if streams[0].name == name {
        assert Select(streams, name)[1..] == Select(streams[1..], name);
      }
    }
  }

  /** Elements of several responses are read as one list. */
  lemma {:induction false} ContentConcat(decode: Decoder, a: seq<Stream>, b: seq<Stream>, name: bytes)
    ensures Content(decode, a + b, name) == Content(decode, a, name) + Content(decode, b, name)
  {
    if |a| == 0 {
      assert a + b == b;
    } else {
      assert (a + b)[1..] == a[1..] + b;
      ContentConcat(decode, a[1..], b, name);
    }
  }

  /** With ContentConcat this determines the bytes of every stream. */
  lemma ContentOfOne(decode: Decoder, element: Stream, name: bytes)
    ensures Content(decode, [], name) == []
    ensures element.name == name ==> Content(decode, [element], name) == decode(element.text)
    ensures element.name != name ==> Content(decode, [element], name) == []
  {
    assert [element][1..] == [];
  }

  /** A text that is not an optional sign and digits. */
  ghost predicate NotANumber(text: bytes) {
    forall sign, digits :: !Spells(text, sign, digits)
  }

  /** The exit code of a Done response is the number that its text spells, in 64 bits; it is zero if there is no text or
      the text is not a number, and before Done. */
  lemma ExitCodeMeans(doc: Document)
    requires doc.Document?
    ensures doc.done && doc.exitCode.Some? ==>
              && (forall sign, digits :: Spells(doc.exitCode.value, sign, digits) ==>
                    ExitCodeOf(doc) == Clamp(Signed(sign, Value(digits))))
              && (NotANumber(doc.exitCode.value) ==> ExitCodeOf(doc) == 0)
    ensures !doc.done || doc.exitCode.None? ==> ExitCodeOf(doc) == 0
  {
    if doc.done && doc.exitCode.Some? {
      AtoiMeans(doc.exitCode.value, [], []);
      forall sign, digits | Spells(doc.exitCode.value, sign, digits)
        ensures ExitCodeOf(doc) == Clamp(Signed(sign, Value(digits)))
      {
        AtoiMeans(doc.exitCode.value, sign, digits);
      }
    }
  }

  /** In particular a printed number is read back. */
  lemma ExitCodeReads(doc: Document, n: nat)
    requires doc.Document? && doc.done && n < 0x8000_0000_0000_0000
    ensures doc.exitCode == Some(Decimal(n)) ==> ExitCodeOf(doc) == n
    ensures doc.exitCode == Some(['-'] + Decimal(n)) ==> ExitCodeOf(doc) == -(n as int)
  {
    var minus: bytes := ['-'];
    DecimalValue(n);
    ExitCodeMeans(doc);
    assert [] + Decimal(n) == Decimal(n);
    assert Spells(Decimal(n), [], Decimal(n)) && Spells(minus + Decimal(n), minus, Decimal(n));
  }

  method WriteNodes(decode: Decoder, streams: seq<Stream>, name: bytes) returns (buffer: bytes)
    ensures buffer == Content(decode, streams, name)
  {
    var nodes := Select(streams, name);
    ContentSelects(decode, streams, name);
    buffer := [];
    var i := 0;
    while i < |nodes|
      invariant i <= |nodes|
      invariant buffer + Decoded(decode, nodes[i..]) == Decoded(decode, nodes)
    {
      assert nodes[i..][1..] == nodes[i + 1..];
      buffer := buffer + decode(nodes[i].text);
      i := i + 1;
    }
  }

  /** `error` is whether the response could not be parsed; then nothing is written. */
  method ParseSlurpOutputErrResponse(decode: Decoder, doc: Document)
    returns (stdout: bytes, stderr: bytes, finished: bool, exitCode: int, error: bool)
    ensures error == doc.Malformed?
    ensures error ==> (stdout, stderr, finished, exitCode) == ([], [], false, 0)
    ensures !error ==>
      && stdout == Content(decode, doc.streams, STDOUT)
      && stderr == Content(decode, doc.streams, STDERR)
      && finished == doc.done
      && exitCode == ExitCodeOf(doc)
    ensures doc.Document? && doc.done ==>
      forall n: nat :: n < 0x8000_0000_0000_0000 ==>
        && (doc.exitCode == Some(Decimal(n)) ==> exitCode == n)
        && (doc.exitCode == Some(['-'] + Decimal(n)) ==> exitCode == -(n as int))
    ensures doc.Document? && (!doc.done || doc.exitCode.None? || NotANumber(doc.exitCode.value)) ==> exitCode == 0
  {
    if doc.Document? {
      ExitCodeMeans(doc);
    }
    if doc.Document? && doc.done {
      forall n: nat | n < 0x8000_0000_0000_0000
        ensures doc.exitCode == Some(Decimal(n)) ==> ExitCodeOf(doc) == n
        ensures doc.exitCode == Some(['-'] + Decimal(n)) ==> ExitCodeOf(doc) == -(n as int)
      {
        ExitCodeReads(doc, n);
      }
    }
    stdout, stderr, finished, exitCode, error := [], [], false, 0, false;
    if doc.Malformed? {
      error := true;
      return;
    }
    stdout := WriteNodes(decode, doc.streams, STDOUT);
    stderr := WriteNodes(decode, doc.streams, STDERR);
    if doc.done {
      finished := true;
      if doc.exitCode.Some? {
        exitCode := Atoi(doc.exitCode.value).0;
      }
    }
  }
}
