/** What the remote command receives on its standard input, over every run of the writer. */
module CommandWriterProofs {

  import opened Wrappers
  import opened Bytes
  import opened CommandWriter

  /** The bytes of the requests that were answered, in order: what the remote command reads. */
  function Received(frames: seq<Frame>): bytes {
    if |frames| == 0 then []
    else
      var last := frames[|frames| - 1];
      Received(frames[..|frames| - 1]) + if last.ok then last.data else []
  }

  lemma ReceivedPush(frames: seq<Frame>, frame: Frame)
    ensures Received(frames + [frame]) == Received(frames) + if frame.ok then frame.data else []
  {
    assert (frames + [frame])[..|frames|] == frames;
  }

  /** A request made by Write: never an End frame, never empty, never beyond the limit. */
  ghost predicate Chunk(config: Config, frame: Frame) {
    !frame.eof && 0 < |frame.data| <= config.envelope - 1000
  }

  /** The requests from `start` on are those of one write: all but the last are full and answered. */
  ghost predicate ChunksFrom(config: Config, frames: seq<Frame>, start: nat) {
    && start <= |frames|
    && (forall i :: start <= i < |frames| ==> Chunk(config, frames[i]))
    && (forall i :: start <= i < |frames| - 1 ==> frames[i].ok && |frames[i].data| == config.envelope - 1000)
  }

  /** The first request of a write, and what remains of it. */
  lemma FirstChunk(config: Config, frames: seq<Frame>, data: bytes) returns (n: nat, first: seq<Frame>)
    requires HasRoom(config) && |data| > 0 && config.valid
    ensures n == Min(config.envelope - 1000, |data|) > 0
    ensures first == frames + [Frame(data[..n], false, config.net(|frames|))]
    ensures Received(first) == Received(frames) + if config.net(|frames|) then data[..n] else []
    ensures SendAll(config, frames, data)
         == if !config.net(|frames|) then (first, 0)
            else (SendAll(config, first, data[n..]).0, n + SendAll(config, first, data[n..]).1)
  {
    n := Min(config.envelope - 1000, |data|);
    first := frames + [Frame(data[..n], false, config.net(|frames|))];
    ReceivedPush(frames, Frame(data[..n], false, config.net(|frames|)));
  }

  /** One write delivers exactly the prefix it reports, in order and without loss. */
  lemma {:induction false} WriteDelivers(config: Config, frames: seq<Frame>, data: bytes)
    requires HasRoom(config)
    ensures frames <= SendAll(config, frames, data).0
    ensures Received(SendAll(config, frames, data).0) == Received(frames) + data[..SendAll(config, frames, data).1]
    decreases |data|
  {
    if |data| > 0 && config.valid {
      var n, first := FirstChunk(config, frames, data);
      if config.net(|frames|) {
        WriteDelivers(config, first, data[n..]);
        var written := SendAll(config, first, data[n..]).1;
        assert data[..n] + data[n..][..written] == data[..n + written];
      }
    }
  }

  /** One write makes non-empty requests within the limit, and only the last can be partial or unanswered. */
  lemma {:induction false} WriteChunks(config: Config, frames: seq<Frame>, data: bytes)
    requires HasRoom(config)
    ensures ChunksFrom(config, SendAll(config, frames, data).0, |frames|)
    ensures |SendAll(config, frames, data).0| > |frames| ==> |data| > 0
    decreases |data|
  {
    if |data| > 0 && config.valid {
      var n, first := FirstChunk(config, frames, data);
      if config.net(|frames|) {
        WriteDelivers(config, first, data[n..]);
        WriteChunks(config, first, data[n..]);
        assert SendAll(config, first, data[n..]).0[|frames|] == first[|frames|];
      }
    }
  }

  /** The request for the bytes that follow the first `written`, unanswered. */
  function Unanswered(config: Config, data: bytes, written: nat): Frame
    requires HasRoom(config) && written <= |data|
  {
    Frame(data[written..written + Min(config.envelope - 1000, |data| - written)], false, false)
  }

  /** The requests after the first `start` end with an unanswered one for the bytes right after the accepted prefix. */
  ghost predicate StoppedAfter(config: Config, sent: seq<Frame>, start: nat, data: bytes, written: nat)
    requires HasRoom(config) && written <= |data|
  {
    |sent| > start && sent[|sent| - 1] == Unanswered(config, data, written)
  }

  lemma StoppedShift(config: Config, sent: seq<Frame>, start: nat, data: bytes, n: nat, written: nat)
    requires HasRoom(config) && n + written <= |data|
    requires StoppedAfter(config, sent, start + 1, data[n..], written)
    ensures StoppedAfter(config, sent, start, data, n + written)
  {
    var m := Min(config.envelope - 1000, |data| - n - written);
    assert data[n..][written..written + m] == data[n + written..n + written + m];
  }

  /** A write that stops short stopped at an unanswered request for the bytes right after the accepted prefix. */
  lemma {:induction false} WriteStops(config: Config, frames: seq<Frame>, data: bytes)
    requires HasRoom(config) && config.valid && SendAll(config, frames, data).1 < |data|
    ensures (var r := SendAll(config, frames, data);
             StoppedAfter(config, r.0, |frames|, data, r.1))
    decreases |data|
  {
    var n, first := FirstChunk(config, frames, data);
    if config.net(|frames|) {
      WriteStops(config, first, data[n..]);
      var r := SendAll(config, first, data[n..]);
      StoppedShift(config, r.0, |frames|, data, n, r.1);
    } else {
      assert Unanswered(config, data, 0).data == data[..n];
    }
  }

  /** `count` pieces of at most `size` bytes are as few as can hold `length` bytes. */
  ghost predicate Ceiling(count: nat, size: nat, length: nat) {
    length <= count * size < length + size
  }

  lemma OneMore(count: nat, size: nat, length: nat, n: nat)
    requires 0 < n <= size && n <= length && (n < size ==> n == length)
    requires Ceiling(count, size, length - n)
    ensures Ceiling(count + 1, size, length)
  {
    assert (count + 1) * size == count * size + size;
    AtLeast(count, size);
  }

  lemma AtLeast(count: nat, size: nat)
    ensures count > 0 ==> count * size >= size
  {
    if count > 0 {
      assert count * size == (count - 1) * size + size;
    }
  }

  /** A complete write uses the ceiling number of requests, all of them answered. */
  lemma {:induction false} WriteCounts(config: Config, frames: seq<Frame>, data: bytes)
    requires HasRoom(config) && SendAll(config, frames, data).1 == |data|
    ensures (var sent := SendAll(config, frames, data).0;
             && frames <= sent
             && Ceiling(|sent| - |frames|, config.envelope - 1000, |data|)
             && forall i :: |frames| <= i < |sent| ==> sent[i].ok)
    decreases |data|
  {
    if |data| > 0 {
      var n, first := FirstChunk(config, frames, data);
      WriteCounts(config, first, data[n..]);
      var sent := SendAll(config, first, data[n..]).0;
      assert sent[|frames|] == first[|frames|];
      OneMore(|sent| - |first|, config.envelope - 1000, |data|, n);
    }
  }

  /** With every request answered, the whole input is accepted. */
  lemma {:induction false} WriteAccepts(config: Config, frames: seq<Frame>, data: bytes)
    requires HasRoom(config) && config.valid && forall k :: config.net(k)
    ensures SendAll(config, frames, data).1 == |data|
    decreases |data|
  {
    if |data| > 0 {
      var n := Min(config.envelope - 1000, |data|);
      WriteAccepts(config, frames + [Frame(data[..n], false, true)], data[n..]);
    }
  }

  // ----- runs -----

  datatype Op = WriteOp(data: bytes) | CloseOp | WriteCloseOp(data: bytes)

  /** One operation, and the prefix of its data that it reports as written. */
  function Step(config: Config, w: Writer, op: Op): (Writer, bytes)
    requires HasRoom(config)
  {
    match op
    case WriteOp(data) =>
      var (w', (written, _)) := WriteStep(config, w, data);
      (w', data[..written])
    case CloseOp => (CloseStep(config, w).0, [])
    case WriteCloseOp(data) =>
      var (w', (written, _)) := WriteCloseStep(config, w, data);
      (w', data[..written])
  }

  /** The writer after a sequence of operations, and everything they report as written, in order. */
  function Run(config: Config, w: Writer, ops: seq<Op>): (Writer, bytes)
    requires HasRoom(config)
    decreases |ops|
  {
    if |ops| == 0 then (w, [])
    else
      var (w', accepted) := Step(config, w, ops[0]);
      var (end, rest) := Run(config, w', ops[1..]);
      (end, accepted + rest)
  }

  /** Nothing follows an End frame, and there is none before the writer is closed. */
  ghost predicate EndIsLast(w: Writer) {
    forall i :: 0 <= i < |w.frames| && w.frames[i].eof ==> i == |w.frames| - 1 && w.eof
  }

  ghost predicate Ended(w: Writer) {
    |w.frames| > 0 && w.frames[|w.frames| - 1].eof
  }

  lemma StepKeeps(config: Config, w: Writer, op: Op)
    requires HasRoom(config) && EndIsLast(w)
    ensures EndIsLast(Step(config, w, op).0)
    ensures Received(Step(config, w, op).0.frames) == Received(w.frames) + Step(config, w, op).1
    ensures w.eof ==> Step(config, w, op) == (w, [])
    ensures !w.eof ==> (Ended(Step(config, w, op).0) <==> op.CloseOp? && config.valid)
  {
    match op
    case WriteOp(data) =>
      WriteDelivers(config, w.frames, data);
      WriteChunks(config, w.frames, data);
    case CloseOp =>
      ReceivedPush(w.frames, Frame([], true, config.net(|w.frames|)));
    case WriteCloseOp(data) =>
  }

  /** A closed writer sends nothing more and accepts nothing more, whatever is called on it. */
  lemma {:induction false} NothingAfterEof(config: Config, w: Writer, ops: seq<Op>)
    requires HasRoom(config) && EndIsLast(w) && w.eof
    ensures Run(config, w, ops) == (w, [])
    decreases |ops|
  {
    if |ops| > 0 {
      StepKeeps(config, w, ops[0]);
      NothingAfterEof(config, w, ops[1..]);
      assert Step(config, w, ops[0]).1 + [] == [];
    }
  }

  /** Over every run, the remote command receives exactly the concatenation of the accepted prefixes, and an End frame
      is the last request there is, so at most one is sent. */
  lemma {:induction false} RunStream(config: Config, w: Writer, ops: seq<Op>)
    requires HasRoom(config) && EndIsLast(w)
    ensures (var (end, accepted) := Run(config, w, ops);
             EndIsLast(end) && Received(end.frames) == Received(w.frames) + accepted)
    decreases |ops|
  {
    if |ops| > 0 {
      var (w', accepted) := Step(config, w, ops[0]);
      StepKeeps(config, w, ops[0]);
      RunStream(config, w', ops[1..]);
    }
  }

  /** Whether the first operation that closes the writer is Close rather than WriteClose. */
  predicate ClosedByClose(ops: seq<Op>) {
    |ops| > 0 && (ops[0].CloseOp? || (ops[0].WriteOp? && ClosedByClose(ops[1..])))
  }

  /** The remote command is told about the end of its input exactly when the writer is closed by Close: a WriteClose
      before that, which sends nothing itself, also keeps any later Close from sending the End frame. */
  lemma {:induction false} EndSentIff(config: Config, w: Writer, ops: seq<Op>)
    requires HasRoom(config) && EndIsLast(w) && !w.eof
    ensures Ended(Run(config, w, ops).0) <==> config.valid && ClosedByClose(ops)
    decreases |ops|
  {
    if |ops| > 0 {
      var w' := Step(config, w, ops[0]).0;
      StepKeeps(config, w, ops[0]);
      if ops[0].WriteOp? {
        EndSentIff(config, w', ops[1..]);
      } else {
        NothingAfterEof(config, w', ops[1..]);
      }
    }
  }

  // ----- the stdin goroutine -----

  /** `end` is `start` followed by the first `n` bytes of `input`. */
  ghost predicate Extends(start: bytes, end: bytes, input: bytes, n: nat) {
    n <= |input| && end == start + input[..n]
  }

  lemma ExtendsMore(start: bytes, middle: bytes, end: bytes, a: bytes, b: bytes, n: nat)
    requires Extends(start, middle, a, |a|) && Extends(middle, end, b, n)
    ensures Extends(start, end, a + b, |a| + n)
  {
    assert (a + b)[..|a| + n] == a + b[..n];
  }

  lemma ExtendsWithin(start: bytes, end: bytes, a: bytes, b: bytes, n: nat)
    requires Extends(start, end, a, n)
    ensures Extends(start, end, a + b, n)
  {
    assert (a + b)[..n] == a[..n];
  }

  lemma OneWrite(config: Config, w: Writer, data: bytes)
    requires HasRoom(config) && EndIsLast(w) && !w.eof
    ensures (var r := WriteStep(config, w, data);
             && EndIsLast(r.0) && !r.0.eof
             && Extends(Received(w.frames), Received(r.0.frames), data, r.1.0)
             && (r.1.1.None? <==> r.1.0 == |data|))
  {
    StepKeeps(config, w, WriteOp(data));
  }

  /** Copying delivers a prefix of what the reader yields, and all of it exactly when no write falls short. */
  lemma {:induction false} CopyDelivers(config: Config, w: Writer, chunks: seq<bytes>)
    returns (n: nat)
    requires HasRoom(config) && EndIsLast(w) && !w.eof
    ensures (var r := CopyAll(config, w, chunks);
             && EndIsLast(r.0) && !r.0.eof
             && Extends(Received(w.frames), Received(r.0.frames), Flatten(chunks), n)
             && (r.1 <==> n == |Flatten(chunks)|))
    decreases |chunks|
  {
    if |chunks| == 0 {
      n := 0;
    } else {
      OneWrite(config, w, chunks[0]);
      var r := WriteStep(config, w, chunks[0]);
      if r.1.1.Some? {
        n := r.1.0;
        ExtendsWithin(Received(w.frames), Received(r.0.frames), chunks[0], Flatten(chunks[1..]), n);
      } else {
        var m := CopyDelivers(config, r.0, chunks[1..]);
        n := |chunks[0]| + m;
        var end := CopyAll(config, r.0, chunks[1..]).0;
        ExtendsMore(Received(w.frames), Received(r.0.frames), Received(end.frames), chunks[0], Flatten(chunks[1..]), m);
      }
    }
  }

  // ----- when the whole input arrives -----

  /** How many pieces of at most `size` bytes `n` bytes are cut into. */
  function Pieces(n: nat, size: nat): nat
    requires size > 0
  {
    if n == 0 then 0 else 1 + Pieces(n - Min(size, n), size)
  }

  /** How many Send requests it takes to copy all the chunks. */
  function Needed(config: Config, chunks: seq<bytes>): nat
    requires HasRoom(config)
  {
    if |chunks| == 0 then 0 else Pieces(|chunks[0]|, config.envelope - 1000) + Needed(config, chunks[1..])
  }

  /** The network answers `count` requests from the `first`-th on. */
  ghost predicate Answers(net: nat -> bool, first: nat, count: nat) {
    forall k :: first <= k < first + count ==> net(k)
  }

  lemma AnswersSplit(net: nat -> bool, first: nat, a: nat, b: nat)
    ensures Answers(net, first, a + b) <==> Answers(net, first, a) && Answers(net, first + a, b)
  {
  }

  lemma OneAnswer(net: nat -> bool, first: nat)
    ensures Answers(net, first, 1) <==> net(first)
  {
  }

  /** A write accepts all its data exactly if the network answers all the requests that this takes. */
  lemma {:induction false} WriteCompleteIff(config: Config, frames: seq<Frame>, data: bytes)
    requires HasRoom(config) && config.valid
    ensures (var (sent, count) := (SendAll(config, frames, data), Pieces(|data|, config.envelope - 1000));
             && (sent.1 == |data| <==> Answers(config.net, |frames|, count))
             && (sent.1 == |data| ==> |sent.0| == |frames| + count))
    decreases |data|
  {
    if |data| > 0 {
      var n, first := FirstChunk(config, frames, data);
      var rest := Pieces(|data| - n, config.envelope - 1000);
      AnswersSplit(config.net, |frames|, 1, rest);
      OneAnswer(config.net, |frames|);
      if config.net(|frames|) {
        WriteCompleteIff(config, first, data[n..]);
      }
    }
  }

  lemma {:induction false} CopyCompleteIff(config: Config, w: Writer, chunks: seq<bytes>)
    requires HasRoom(config) && config.valid && !w.eof
    ensures CopyAll(config, w, chunks).1 <==> Answers(config.net, |w.frames|, Needed(config, chunks))
    decreases |chunks|
  {
    if |chunks| > 0 {
      var count := Pieces(|chunks[0]|, config.envelope - 1000);
      WriteCompleteIff(config, w.frames, chunks[0]);
      AnswersSplit(config.net, |w.frames|, count, Needed(config, chunks[1..]));
      var r := WriteStep(config, w, chunks[0]);
      if r.1.1.None? {
        CopyCompleteIff(config, r.0, chunks[1..]);
      }
    }
  }

  /** Whatever the network does, the remote command receives a prefix of standard input, then the End frame, and
      nothing else; the prefix is the whole input, and the copy reports it so, exactly if the network answers every
      request that the whole input takes. */
  lemma InputDelivered(config: Config, chunks: seq<bytes>) returns (n: nat)
    requires HasRoom(config) && config.valid
    ensures n <= |Flatten(chunks)|
    ensures (var (w, complete) := CopyInputStep(config, START, chunks);
             && Received(w.frames) == Flatten(chunks)[..n]
             && Ended(w) && EndIsLast(w)
             && (complete <==> n == |Flatten(chunks)|)
             && (complete <==> forall k :: 0 <= k < Needed(config, chunks) ==> config.net(k)))
  {
    n := CopyDelivers(config, START, chunks);
    CopyCompleteIff(config, START, chunks);
    var w := CopyAll(config, START, chunks).0;
    StepKeeps(config, w, CloseOp);
  }

  /** An input whose first request is not answered: nothing of it arrives, and still the End frame is sent. */
  lemma NothingArrives(config: Config, chunks: seq<bytes>)
    requires HasRoom(config) && config.valid && !config.net(0)
    requires |chunks| > 0 && |chunks[0]| > 0
    ensures (var (w, complete) := CopyInputStep(config, START, chunks);
             Ended(w) && Received(w.frames) == [] && !complete)
  {
    var n, first := FirstChunk(config, [], chunks[0]);
    var w := WriteStep(config, START, chunks[0]).0;
    assert w == Writer(false, first);
    assert CopyAll(config, START, chunks) == (w, false);
    ReceivedPush(first, Frame([], true, config.net(1)));
    assert CloseStep(config, w).0.frames == first + [Frame([], true, config.net(1))];
    assert Received([]) == [];
  }

  /** The requests that were answered, as the remote side sees them. */
  function AnsweredFrames(frames: seq<Frame>): seq<Frame> {
    if |frames| == 0 then []
    else
      var last := frames[|frames| - 1];
      AnsweredFrames(frames[..|frames| - 1]) + if last.ok then [last] else []
  }

  lemma AnsweredPush(frames: seq<Frame>, frame: Frame)
    ensures AnsweredFrames(frames + [frame]) == AnsweredFrames(frames) + if frame.ok then [frame] else []
  {
    assert (frames + [frame])[..|frames|] == frames;
  }

  /** A copy that falls short after its first chunk, and a complete copy of that chunk alone. */
  lemma OneChunk(config: Config, chunk: bytes)
    requires HasRoom(config) && config.valid && config.net(0) && 0 < |chunk| <= config.envelope - 1000
    ensures WriteStep(config, START, chunk) == (Writer(false, [Frame(chunk, false, true)]), (|chunk|, None))
  {
    var n, first := FirstChunk(config, [], chunk);
    assert chunk[..n] == chunk && chunk[n..] == [];
    assert first == [Frame(chunk, false, true)];
  }

  /** Truncation cannot be seen: the answered requests of an input cut off after its first chunk are those of a
      complete input that consists of this chunk. */
  lemma TruncationIsSilent(envelope: int, a: bytes, b: bytes)
    requires envelope > 1000 && 0 < |a| <= envelope - 1000 && |b| > 0
    ensures (var (cut, cutComplete) := CopyInputStep(Config(true, envelope, k => k != 1), START, [a, b]);
             var (whole, wholeComplete) := CopyInputStep(Config(true, envelope, k => true), START, [a]);
             && !cutComplete && wholeComplete
             && AnsweredFrames(cut.frames) == AnsweredFrames(whole.frames))
  {
    var (c1, c2) := (Config(true, envelope, k => k != 1), Config(true, envelope, k => true));
    var (sent, end) := (Frame(a, false, true), Frame([], true, true));
    OneChunk(c1, a);
    OneChunk(c2, a);
    assert [a, b][1..] == [b] && [b][0] == b && [a][1..] == [];
    var n, first := FirstChunk(c1, [sent], b);
    var lost := Frame(b[..n], false, false);
    assert WriteStep(c1, Writer(false, [sent]), b).0 == Writer(false, [sent] + [lost]);
    assert CopyAll(c1, START, [a, b]) == (Writer(false, [sent] + [lost]), false);
    assert CopyAll(c2, START, [a]) == (Writer(false, [sent]), true);
    AnsweredPush([sent], lost);
    AnsweredPush([sent] + [lost], end);
    AnsweredPush([sent], end);
  }
}
