/** client.go, RunWithContextWithInput: the caller, the output pump and the three copying goroutines, interleaved in
    any order.  A step is what one goroutine does between two points where another can act; the environment chooses
    who moves next, what the server answers, how much the copiers take and when the context is done. */
module RunComposition {

  import opened Wrappers
  import opened Bytes
  import opened SlurpResponse
  import opened Command
  import CommandWriter

  /** The requests of a run, in the order in which they are sent. */
  datatype Wire =
    | CreateShell
    | ExecuteCommand
    | ReceiveOutput
    | SendInput(frame: CommandWriter.Frame)
    | SignalCommand
    | DeleteShell

  datatype RunError = CreateFailed | ExecuteFailed | CommandFailed(error: CommandError)

  /** Where the caller stands.  Command.Close is three steps: the test of the cancel
      channel, its closing, the request. */
  datatype Main =
    | Creating
    | Executing
    | WaitDone
    | WaitGroup
    | CloseTest
    | CloseChannel
    | SendSignal
    | Deleting(exitCode: int, error: Option<RunError>)
    | Returned(exitCode: int, error: Option<RunError>)

  /** How the last select went: whether the context was done, what select does if both channels are ready, and whether
      it took the cancel branch. */
  datatype Choice = Choice(seen: bool, prefer: bool, last: bool)

  /** Where the output pump stands.  A pipe write is a rendezvous: it lasts until the reader has taken every byte. */
  datatype Fetcher =
    | Idle
    | Selecting
    | Polling(choice: Choice)
    | WritingOut(choice: Choice, doc: Document)
    | WritingErr(choice: Choice, doc: Document)
    | ContextTest(prefer: bool)
    | ContextClose(prefer: bool)
    | ContextSignal(prefer: bool)
    | ClosingDone
    | Gone

  /** A goroutine that copies a pipe to the caller's writer: how much it has taken from the pipe, how much of that the
      writer has accepted, whether it is done, and whether it stopped because the writer failed. */
  datatype Copier = Copier(taken: nat, delivered: nat, done: bool, failed: bool)

  /** `sent` counts the Send requests of the stdin goroutine; `rounds` lists the turns that the pump has completed;
      `mid` lists the requests of the goroutines, `log` all requests. */
  datatype World = World(
    main: Main, fetcher: Fetcher, listening: bool, ctx: bool, command: State, rounds: seq<Round>,
    sent: nat, stdinDone: bool, out: Copier, err: Copier, mid: seq<Wire>, log: seq<Wire>)

  const NEW_COPIER := Copier(0, 0, false, false)

  const START :=
    World(Creating, Idle, true, false, Command.Start(false), [], 0, false, NEW_COPIER, NEW_COPIER, [], [])

  /** What a run is given: the base64 decoder, what standard input yields if there is one, the EnvelopeSize, and the
      network's answers to Send requests. */
  datatype Job = Job(decode: Decoder, stdin: Option<seq<bytes>>, envelope: int, net: nat -> bool)

  ghost predicate HasRoom(job: Job) { job.envelope > 1000 }

  /** The Send requests of the stdin goroutine. */
  function Frames(job: Job, valid: bool): seq<CommandWriter.Frame>
    requires HasRoom(job)
  {
    if job.stdin.None? then []
    else
      var config := CommandWriter.Config(valid, job.envelope, job.net);
      CommandWriter.CopyInputStep(config, CommandWriter.START, job.stdin.value).0.frames
  }

  datatype Action =
    | Opened(ok: bool, valid: bool)
    | Caller
    | ContextFires
    | Select(prefer: bool)
    | Answer(outcome: Outcome)
    | Pump
    | Stdin
    | CopyOut(copy: Copy)
    | CopyErr(copy: Copy)

  /** One turn of io.Copy: how many bytes it reads at most, and, if the caller's writer fails, how many of them the
      writer accepts before it does. */
  datatype Copy = Copy(n: nat, failure: Option<nat>)

  function Emit(w: World, wire: Wire): World {
    w.(mid := w.mid + [wire], log := w.log + [wire])
  }

  // ----- the caller -----

  /** The answer to Create or Execute; `valid` is whether the command identifier in it is not empty. */
  function OpenedStep(w: World, ok: bool, valid: bool): World {
    match w.main
    case Creating =>
      w.(log := w.log + [CreateShell], main := if ok then Executing else Returned(1, Some(CreateFailed)))
    case Executing =>
      var asked := w.(log := w.log + [ExecuteCommand]);
      if ok then asked.(main := WaitDone, fetcher := Selecting, command := Command.Start(valid))
      else asked.(main := Deleting(1, Some(ExecuteFailed)))
    case _ => w
  }

  function ResultOf(s: State): Main {
    Deleting(s.exitCode, if s.error.Some? then Some(CommandFailed(s.error.value)) else None)
  }

  function CallerStep(w: World): World {
    match w.main
    case WaitDone => if w.command.doneCloses > 0 then w.(main := WaitGroup) else w
    case WaitGroup => if w.stdinDone && w.out.done && w.err.done then w.(main := CloseTest) else w
    case CloseTest =>
      if !w.command.valid then w.(main := ResultOf(w.command))
      else w.(main := if w.command.cancelCloses > 0 then SendSignal else CloseChannel)
    case CloseChannel =>
      w.(main := SendSignal, command := w.command.(cancelCloses := w.command.cancelCloses + 1))
    case SendSignal =>
      w.(main := ResultOf(w.command), log := w.log + [SignalCommand],
         command := w.command.(requests := w.command.requests + [Signal]))
    case Deleting(exitCode, error) =>
      w.(main := Returned(exitCode, error), log := w.log + [DeleteShell])
    case _ => w
  }

  // ----- the output pump -----

  /** The select of the loop. */
  function SelectStep(w: World, prefer: bool): World {
    if !w.fetcher.Selecting? then w
    else if w.ctx && w.listening && (w.command.cancelCloses == 0 || prefer) then
      w.(fetcher := ContextTest(prefer), listening := false, command := w.command.(error := Some(ContextDone)))
    else
      var polling := w.(fetcher := Polling(Choice(w.ctx, prefer, w.command.cancelCloses > 0)));
      if w.command.valid then Emit(polling, ReceiveOutput) else polling
  }

  function RoundOf(choice: Choice, outcome: Outcome): Round {
    Round(false, choice.seen, choice.prefer, outcome)
  }

  /** The end of a poll, once slurpAllOutput returns. */
  function EndPoll(w: World, choice: Choice, outcome: Outcome, slurped: (State, bool, Option<CommandError>)): World {
    var (polled, finished, error) := slurped;
    var w' := w.(rounds := w.rounds + [RoundOf(choice, outcome)]);
    if choice.last then w'.(fetcher := ClosingDone, command := ClosePipes(polled, Broken(Canceled)))
    else if finished then w'.(fetcher := ClosingDone, command := polled.(error := error))
    else w'.(fetcher := Selecting, command := polled)
  }

  /** The answer to a poll.  A document is written to the pipes first, standard output before standard error. */
  function AnswerStep(decode: Decoder, w: World, outcome: Outcome): World {
    if !w.fetcher.Polling? then w
    else if w.command.valid && outcome.Response? && outcome.doc.Document? then
      w.(fetcher := WritingOut(w.fetcher.choice, outcome.doc),
         command := WriteStdout(decode, Answered(w.command, outcome), outcome.doc))
    else EndPoll(w, w.fetcher.choice, outcome, Slurp(decode, w.command, outcome))
  }

  /** A write returns when its bytes are taken. */
  function WriteStep(decode: Decoder, w: World): World {
    match w.fetcher
    case WritingOut(choice, doc) =>
      if w.out.taken < |w.command.stdout.written| || !doc.Document? then w
      else w.(fetcher := WritingErr(choice, doc), command := WriteStderr(decode, w.command, doc))
    case WritingErr(choice, doc) =>
      if w.err.taken < |w.command.stderr.written| || !doc.Document? then w
      else EndPoll(w, choice, Response(doc), (FinishPoll(w.command, doc), doc.done, None))
    case _ => w
  }

  /** The answer that a turn on the context branch does not wait for. */
  const NO_ANSWER := Failure([], true)

  function ContextRound(prefer: bool): Round {
    Round(false, true, prefer, NO_ANSWER)
  }

  /** The steps of Close inside the loop, and the closing of the done channel. */
  function CloseSteps(w: World): World {
    match w.fetcher
    case ContextTest(prefer) =>
      if !w.command.valid then w.(fetcher := Selecting, rounds := w.rounds + [ContextRound(prefer)])
      else w.(fetcher := if w.command.cancelCloses > 0 then ContextSignal(prefer) else ContextClose(prefer))
    case ContextClose(prefer) =>
      w.(fetcher := ContextSignal(prefer), command := w.command.(cancelCloses := w.command.cancelCloses + 1))
    case ContextSignal(prefer) =>
      Emit(w, SignalCommand).(
        fetcher := Selecting, rounds := w.rounds + [ContextRound(prefer)],
        command := w.command.(requests := w.command.requests + [Signal]))
    case ClosingDone => w.(fetcher := Gone, command := CloseDone(w.command))
    case _ => w
  }

  function PumpStep(decode: Decoder, w: World): World {
    if w.fetcher.WritingOut? || w.fetcher.WritingErr? then WriteStep(decode, w) else CloseSteps(w)
  }

  // ----- the copying goroutines -----

  /** The stdin goroutine sends its requests one by one. */
  function StdinStep(frames: seq<CommandWriter.Frame>, w: World): World {
    if w.fetcher.Idle? || w.stdinDone then w
    else if w.sent < |frames| then Emit(w, SendInput(frames[w.sent])).(sent := w.sent + 1)
    else w.(stdinDone := true)
  }

  /** Take some of what the pipe holds and write it; stop when the writer fails, or when the pipe holds nothing more
      and is closed.  The bytes of a failed write are taken, and the read half stays open. */
  function CopyStep(copier: Copier, pipe: Pipe, copy: Copy): Copier {
    if copier.done || copy.n == 0 then copier
    else if copier.taken < |pipe.written| then
      var n := Min(copy.n, |pipe.written| - copier.taken);
      if copy.failure.None? then copier.(taken := copier.taken + n, delivered := copier.delivered + n)
      else Copier(copier.taken + n, copier.delivered + Min(copy.failure.value, n), true, true)
    else if pipe.ending.Some? then copier.(done := true)
    else copier
  }

  // ----- the whole run -----

  /** An action whose goroutine cannot take it changes nothing. */
  function Step(job: Job, w: World, action: Action): World
    requires HasRoom(job)
  {
    match action
    case Opened(ok, valid) => OpenedStep(w, ok, valid)
    case Caller => CallerStep(w)
    case ContextFires => w.(ctx := true)
    case Select(prefer) => SelectStep(w, prefer)
    case Answer(outcome) => AnswerStep(job.decode, w, outcome)
    case Pump => PumpStep(job.decode, w)
    case Stdin => StdinStep(Frames(job, w.command.valid), w)
    case CopyOut(copy) => if w.fetcher.Idle? then w else w.(out := CopyStep(w.out, w.command.stdout, copy))
    case CopyErr(copy) => if w.fetcher.Idle? then w else w.(err := CopyStep(w.err, w.command.stderr, copy))
  }

  function Run(job: Job, w: World, actions: seq<Action>): World
    requires HasRoom(job)
    decreases |actions|
  {
    if |actions| == 0 then w else Run(job, Step(job, w, actions[0]), actions[1..])
  }
}
