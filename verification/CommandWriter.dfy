/** command.go, commandWriter: the standard input of a remote command, cut into Send requests. */
module CommandWriter {

  import opened Wrappers
  import opened Bytes

  /** One Send request: its raw bytes, its End flag, and whether it was answered without an error. */
  datatype Frame = Frame(data: bytes, eof: bool, ok: bool)

  /** Whether Command.check passes, the EnvelopeSize parameter, and the network's answer to the k-th Send request. */
  datatype Config = Config(valid: bool, envelope: int, net: nat -> bool)

  datatype WriteError = ClosedPipe | ShortWrite

  /** The writer's eof flag, and the Send requests made so far. */
  datatype Writer = Writer(eof: bool, frames: seq<Frame>)

  const START := Writer(false, [])

  /** Write never sends more than this many bytes at a time; with no room at all its loop does not end. */
  ghost predicate HasRoom(config: Config) { config.envelope > 1000 }

  // ----- what the operations do -----

  /** The loop of Write from some point on: the requests made in the end, and the bytes accepted. */
  function SendAll(config: Config, frames: seq<Frame>, data: bytes): (r: (seq<Frame>, nat))
    requires HasRoom(config)
    ensures r.1 <= |data|
    decreases |data|
  {
    if |data| == 0 || !config.valid then (frames, 0)
    else
      var n := Min(config.envelope - 1000, |data|);
      var ok := config.net(|frames|);
      var sent := frames + [Frame(data[..n], false, ok)];
      if ok then
        var (rest, written) := SendAll(config, sent, data[n..]);
        (rest, n + written)
      else (sent, 0)
  }

  /** A closed writer refuses, and changes nothing; an open one reports a short write exactly if it did not accept
      everything; without a command nothing is sent or accepted. */
  function WriteStep(config: Config, w: Writer, data: bytes): (r: (Writer, (nat, Option<WriteError>)))
    requires HasRoom(config)
    ensures w.eof ==> r == (w, (0, Some(ClosedPipe)))
    ensures !w.eof ==> !r.0.eof && r.1.1 == if r.1.0 == |data| then None else Some(ShortWrite)
    ensures !config.valid ==> r.0 == w && r.1.0 == 0
  {
    if w.eof then (w, (0, Some(ClosedPipe)))
    else
      var (frames, written) := SendAll(config, w.frames, data);
      (w.(frames := frames), (written, if written < |data| then Some(ShortWrite) else None))
  }

  /** The result is whether the error is nil: an open writer of a command sends one End frame, which is answered. */
  function CloseStep(config: Config, w: Writer): (r: (Writer, bool))
    ensures r.0.eof && (r.1 <==> !w.eof && config.valid && config.net(|w.frames|))
    ensures r.0.frames == if w.eof || !config.valid then w.frames else w.frames + [Frame([], true, r.1)]
  {
    if w.eof then (w, false)
    else if !config.valid then (Writer(true, w.frames), false)
    else
      var ok := config.net(|w.frames|);
      (Writer(true, w.frames + [Frame([], true, ok)]), ok)
  }

  /** WriteClose is documented to write and mark the end, but it sets the flag that Write refuses on first: it accepts
      nothing and sends nothing, and closes the writer. */
  function WriteCloseStep(config: Config, w: Writer, data: bytes): (r: (Writer, (nat, Option<WriteError>)))
    requires HasRoom(config)
    ensures r == (Writer(true, w.frames), (0, Some(ClosedPipe)))
  {
    WriteStep(config, w.(eof := true), data)
  }

  // ----- the writer object -----

  class StdinWriter {
    const config: Config
    var eof: bool
    ghost var frames: seq<Frame>
    var sends: nat

    constructor (config: Config)
      ensures this.config == config && Valid() && View() == START
    {
      this.config, eof, frames, sends := config, false, [], 0;
    }

    ghost predicate Valid()
      reads this
    {
      sends == |frames|
    }

    ghost function View(): Writer
      reads this
    {
      Writer(eof, frames)
    }

    method SendInput(data: bytes, end: bool) returns (ok: bool)
      requires Valid()
      modifies `frames, `sends
      ensures Valid()
      ensures ok == (config.valid && config.net(old(sends)))
      ensures frames == if config.valid then old(frames) + [Frame(data, end, ok)] else old(frames)
    {
      if !config.valid {
        return false;
      }
      ok := config.net(sends);
      frames, sends := frames + [Frame(data, end, ok)], sends + 1;
    }

    method Write(input: bytes) returns (written: nat, error: Option<WriteError>)
      requires Valid() && HasRoom(config)
      modifies this
      ensures Valid()
      ensures (View(), (written, error)) == WriteStep(config, old(View()), input)
    {
      if eof {
        return 0, Some(ClosedPipe);
      }
      var data := input;
      written := 0;
      while |data| > 0
        invariant Valid() && eof == old(eof) && written + |data| == |input|
        invariant (var (end, more) := SendAll(config, frames, data);
                   (end, written + more) == SendAll(config, old(frames), input))
        decreases |data|
      {
        var n := Min(config.envelope - 1000, |data|);
        var ok := SendInput(data[..n], false);
        if !ok {
          break;
        }
        data := data[n..];
        written := written + n;
      }
      error := if written < |input| then Some(ShortWrite) else None;
    }

    method Close() returns (ok: bool)
      requires Valid()
      modifies this
      ensures Valid()
      ensures (View(), ok) == CloseStep(config, old(View()))
    {
      if eof {
        return false;
      }
      eof := true;
      ok := SendInput([], true);
    }

    method WriteClose(data: bytes) returns (written: nat, error: Option<WriteError>)
      requires Valid() && HasRoom(config)
      modifies this
      ensures Valid()
      ensures (View(), (written, error)) == WriteCloseStep(config, old(View()), data)
    {
      eof := true;
      written, error := Write(data);
    }

    /** The stdin goroutine: copy what the reader yields, chunk by chunk, until it ends or a write falls
        short, and then close the writer. */
    method CopyInput(chunks: seq<bytes>) returns (complete: bool)
      requires Valid() && HasRoom(config)
      modifies this
      ensures Valid()
      ensures (View(), complete) == CopyInputStep(config, old(View()), chunks)
    {
      complete := true;
      var i := 0;
      while i < |chunks|
        invariant Valid() && i <= |chunks|
        invariant CopyAll(config, View(), chunks[i..]) == CopyAll(config, old(View()), chunks)
      {
        assert chunks[i..][1..] == chunks[i + 1..];
        var _, error := Write(chunks[i]);
        if error.Some? {
          complete := false;
          break;
        }
        i := i + 1;
      }
      var _ := Close();
    }
  }

  /** io.Copy into the writer: it stops at the first error.  The result is whether every chunk was accepted. */
  function CopyAll(config: Config, w: Writer, chunks: seq<bytes>): (Writer, bool)
    requires HasRoom(config)
    decreases |chunks|
  {
    if |chunks| == 0 then (w, true)
    else
      var (w', (written, error)) := WriteStep(config, w, chunks[0]);
      if error.Some? then (w', false) else CopyAll(config, w', chunks[1..])
  }

  function CopyInputStep(config: Config, w: Writer, chunks: seq<bytes>): (Writer, bool)
    requires HasRoom(config)
  {
    var (w', complete) := CopyAll(config, w, chunks);
    (CloseStep(config, w').0, complete)
  }
}
