/** command.go: the output pump of a remote command.  One goroutine polls for output until the command finishes or is
    cancelled; the network, the context and the caller of Close are an environment that it meets round by round. */
module Command {

  import opened Wrappers
  import opened Bytes
  import opened SlurpResponse

  const EXIT_EOF: int := 16001
  const OPERATION_TIMEOUT: bytes := "OperationTimeout"
  const EOF_TEXT: bytes := "EOF"

  // ----- pipes -----

  datatype CommandError = NoCommand | SendFailed(text: bytes) | BadResponse | Canceled | ContextDone

  /** How a pipe ends for its reader: end of file, or an error. */
  datatype Ending = EndOfFile | Broken(error: CommandError)

  /** The write half of an io.Pipe whose reader drains it: everything written, and the ending once it is closed. */
  datatype Pipe = Pipe(written: bytes, ending: Option<Ending>)

  function PipeWrite(p: Pipe, data: bytes): Pipe {
    if p.ending.Some? then p else p.(written := p.written + data)
  }

  /** The first close wins. */
  function PipeClose(p: Pipe, ending: Ending): Pipe {
    if p.ending.Some? then p else p.(ending := Some(ending))
  }

  // ----- polling -----

  /** The answer to a Receive request: an error with its text and whether it is a timed-out url.Error, or a document. */
  datatype Outcome = Failure(text: bytes, urlTimeout: bool) | Response(doc: Document)

  /** strings.Contains. */
  predicate Contains(s: bytes, p: bytes)
    ensures Contains(s, p) <==> Occurs(s, p)
  {
    Index(s, p) >= 0
  }

  predicate TimedOut(outcome: Outcome)
    ensures TimedOut(outcome) <==>
              outcome.Failure? && (outcome.urlTimeout || Occurs(outcome.text, "OperationTimeout"))
  {
    outcome.Failure? && (outcome.urlTimeout || Contains(outcome.text, OPERATION_TIMEOUT))
  }

  datatype Request = Receive | Signal

  /** `valid` is whether check passes.  `cancelCloses` and `doneCloses` count the closings of the two channels,
      `exits` lists the assignments to the exit code, `polls` the answers to the Receive requests. */
  datatype State = State(
    valid: bool, stdout: Pipe, stderr: Pipe, exitCode: int, error: Option<CommandError>,
    cancelCloses: nat, doneCloses: nat, exits: seq<int>, polls: seq<Outcome>, requests: seq<Request>)

  function Start(valid: bool): State {
    State(valid, Pipe([], None), Pipe([], None), 0, None, 0, 0, [], [], [])
  }

  function ClosePipes(s: State, ending: Ending): State {
    s.(stdout := PipeClose(s.stdout, ending), stderr := PipeClose(s.stderr, ending))
  }

  function SetExit(s: State, exitCode: int): State {
    s.(exitCode := exitCode, exits := s.exits + [exitCode])
  }

  /** A Receive request, and its answer. */
  function Answered(s: State, outcome: Outcome): State {
    s.(requests := s.requests + [Receive], polls := s.polls + [outcome])
  }

  function WriteStdout(decode: Decoder, s: State, doc: Document): State
    requires doc.Document?
  {
    s.(stdout := PipeWrite(s.stdout, Content(decode, doc.streams, STDOUT)))
  }

  function WriteStderr(decode: Decoder, s: State, doc: Document): State
    requires doc.Document?
  {
    s.(stderr := PipeWrite(s.stderr, Content(decode, doc.streams, STDERR)))
  }

  /** What follows the two writes. */
  function FinishPoll(s: State, doc: Document): State
    requires doc.Document?
  {
    if doc.done then ClosePipes(SetExit(s, ExitCodeOf(doc)), EndOfFile) else s
  }

  /** What an answered poll does with a document. */
  function SlurpDocument(decode: Decoder, s: State, doc: Document): (State, bool, Option<CommandError>) {
    if doc.Malformed? then (ClosePipes(s, Broken(BadResponse)), true, Some(BadResponse))
    else (FinishPoll(WriteStderr(decode, WriteStdout(decode, s, doc), doc), doc), doc.done, None)
  }

  /** slurpAllOutput: the new state, whether the command is finished, and the error. */
  function Slurp(decode: Decoder, s: State, outcome: Outcome): (State, bool, Option<CommandError>) {
    if !s.valid then (ClosePipes(s, Broken(NoCommand)), true, Some(NoCommand))
    else
      var s1 := Answered(s, outcome);
      match outcome
      case Failure(text, _) =>
        var error := SendFailed(text);
        if TimedOut(outcome) then (s1, false, Some(error))
        else
          var s2 := if Contains(text, EOF_TEXT) then SetExit(s1, EXIT_EOF) else s1;
          (ClosePipes(s2, Broken(error)), true, Some(error))
      case Response(doc) =>
        SlurpDocument(decode, s1, doc)
  }

  /** Command.Close: it signals the command every time, but closes the cancel channel only if it is open. */
  function CloseStep(s: State): State {
    if !s.valid then s
    else s.(cancelCloses := if s.cancelCloses == 0 then 1 else s.cancelCloses, requests := s.requests + [Signal])
  }

  // ----- the fetch loop -----

  /** What one turn of the loop meets: whether the caller has called Close since the last turn, whether the context is
      done by now, whether select prefers the context when both channels are ready, and the answer to a poll. */
  datatype Round = Round(userCloses: bool, ctxDone: bool, preferCtx: bool, outcome: Outcome)

  /** The loop: the command, whether the context is done, whether the loop still listens to
      it, and whether it returned. */
  datatype Loop = Loop(command: State, ctxDone: bool, listening: bool, returned: bool)

  function StartLoop(valid: bool): Loop {
    Loop(Start(valid), false, true, false)
  }

  /** What happens around the loop before its select. */
  function Arrive(l: Loop, round: Round): Loop {
    l.(command := if round.userCloses then CloseStep(l.command) else l.command, ctxDone := l.ctxDone || round.ctxDone)
  }

  predicate CancelReady(l: Loop) { l.command.cancelCloses > 0 }

  predicate ContextReady(l: Loop) { l.ctxDone && l.listening }

  /** Whether select takes the context branch. */
  predicate TakesContext(l: Loop, round: Round) {
    ContextReady(l) && (!CancelReady(l) || round.preferCtx)
  }

  function CloseDone(s: State): State {
    s.(doneCloses := s.doneCloses + 1)
  }

  /** One turn of a loop that has not returned. */
  function Turn(decode: Decoder, before: Loop, round: Round): Loop {
    var l := Arrive(before, round);
    if TakesContext(l, round) then
      l.(command := CloseStep(l.command.(error := Some(ContextDone))), listening := false)
    else if CancelReady(l) then
      var (polled, _, _) := Slurp(decode, l.command, round.outcome);
      l.(command := CloseDone(ClosePipes(polled, Broken(Canceled))), returned := true)
    else
      var (polled, finished, error) := Slurp(decode, l.command, round.outcome);
      if finished then l.(command := CloseDone(polled.(error := error)), returned := true)
      else l.(command := polled)
  }

  /** The loop after as many of the rounds as it takes. */
  function Fetch(decode: Decoder, l: Loop, rounds: seq<Round>): Loop
    decreases |rounds|
  {
    if l.returned || |rounds| == 0 then l else Fetch(decode, Turn(decode, l, rounds[0]), rounds[1..])
  }

  // ----- the command object -----

  class RemoteCommand {
    const decode: Decoder
    const valid: bool
    var stdout: Pipe
    var stderr: Pipe
    var exitCode: int
    var error: Option<CommandError>
    var cancelled: bool
    var done: bool
    ghost var cancelCloses: nat
    ghost var doneCloses: nat
    ghost var exits: seq<int>
    ghost var polls: seq<Outcome>
    ghost var requests: seq<Request>

    constructor (decode: Decoder, valid: bool)
      ensures this.decode == decode && Valid() && View() == Start(valid)
    {
      this.decode, this.valid := decode, valid;
      stdout, stderr := Pipe([], None), Pipe([], None);
      exitCode, error, cancelled, done := 0, None, false, false;
      cancelCloses, doneCloses, exits, polls, requests := 0, 0, [], [], [];
    }

    /** The channels remember that they are closed; closing one twice would panic. */
    ghost predicate Valid()
      reads this
    {
      (cancelled <==> cancelCloses > 0) && (done <==> doneCloses > 0)
    }

    ghost function View(): State
      reads this
    {
      State(valid, stdout, stderr, exitCode, error, cancelCloses, doneCloses, exits, polls, requests)
    }

    method CloseWithError(ending: Ending)
      modifies `stdout, `stderr
      ensures View() == ClosePipes(old(View()), ending)
    {
      stderr := PipeClose(stderr, ending);
      stdout := PipeClose(stdout, ending);
    }

    method CloseDoneChannel()
      requires Valid() && !done
      modifies `done, `doneCloses
      ensures Valid() && View() == CloseDone(old(View()))
    {
      done, doneCloses := true, doneCloses + 1;
    }

    /** Command.Close; `answered` is whether its request succeeds, and `ok` whether its error is nil. */
    method Close(answered: bool) returns (ok: bool)
      requires Valid()
      modifies this
      ensures Valid() && View() == CloseStep(old(View()))
      ensures ok == (valid && answered)
    {
      if !valid {
        return false;
      }
      if !cancelled {
        cancelled, cancelCloses := true, cancelCloses + 1;
      }
      requests := requests + [Signal];
      ok := answered;
    }

    method WritePipes(out: bytes, errors: bytes)
      modifies `stdout, `stderr
      ensures stdout == PipeWrite(old(stdout), out) && stderr == PipeWrite(old(stderr), errors)
    {
      assert old(stdout).written + [] == old(stdout).written && old(stderr).written + [] == old(stderr).written;
      if |out| > 0 {
        stdout := PipeWrite(stdout, out);
      }
      if |errors| > 0 {
        stderr := PipeWrite(stderr, errors);
      }
    }

    method SlurpAllOutput(outcome: Outcome) returns (finished: bool, err: Option<CommandError>)
      requires Valid()
      modifies this
      ensures Valid()
      ensures (View(), finished, err) == Slurp(decode, old(View()), outcome)
      ensures done == old(done)
    {
      if !valid {
        CloseWithError(Broken(NoCommand));
        return true, Some(NoCommand);
      }
      requests, polls := requests + [Receive], polls + [outcome];
      if outcome.Failure? {
        err := Some(SendFailed(outcome.text));
        if outcome.urlTimeout {
          return false, err;
        }
        if Contains(outcome.text, OPERATION_TIMEOUT) {
          return false, err;
        }
        if Contains(outcome.text, EOF_TEXT) {
          exitCode, exits := EXIT_EOF, exits + [EXIT_EOF];
        }
        CloseWithError(Broken(SendFailed(outcome.text)));
        return true, err;
      }
      finished, err := TakeDocument(outcome.doc);
    }

    /** The second half of slurpAllOutput, for an answer that is not an error. */
    method TakeDocument(doc: Document) returns (finished: bool, err: Option<CommandError>)
      modifies `stdout, `stderr, `exitCode, `exits
      ensures (View(), finished, err) == SlurpDocument(decode, old(View()), doc)
    {
      var out, errors, ended, code, failed := ParseSlurpOutputErrResponse(decode, doc);
      if failed {
        CloseWithError(Broken(BadResponse));
        return true, Some(BadResponse);
      }
      WritePipes(out, errors);
      if ended {
        exitCode, exits := code, exits + [code];
        CloseWithError(EndOfFile);
      }
      return ended, None;
    }

    /** The goroutine of the command, for as many rounds as it is given.  The channel variable ctxDone of the source
        becomes nil when it has been received from; then it is never ready again. */
    method FetchOutput(rounds: seq<Round>) returns (ctxDone: bool, listening: bool, returned: bool)
      requires Valid() && !done
      modifies this
      ensures Valid()
      ensures Loop(View(), ctxDone, listening, returned) == Fetch(decode, Loop(old(View()), false, true, false), rounds)
    {
      ctxDone, listening, returned := false, true, false;
      var i := 0;
      while i < |rounds| && !returned
        invariant Valid() && i <= |rounds| && (returned <==> done)
        invariant Fetch(decode, Loop(old(View()), false, true, false), rounds)
               == Fetch(decode, Loop(View(), ctxDone, listening, returned), rounds[i..])
      {
        assert rounds[i..][0] == rounds[i] && rounds[i..][1..] == rounds[i + 1..];
        ctxDone := ctxDone || rounds[i].ctxDone;
        listening, returned := FetchTurn(rounds[i], ctxDone, listening);
        i := i + 1;
      }
    }

    /** One turn of the loop, the context being done or not. */
    method FetchTurn(round: Round, ctxDone: bool, listens: bool) returns (listening: bool, returned: bool)
      requires Valid() && !done && (round.ctxDone ==> ctxDone)
      modifies this
      ensures Valid() && (returned <==> done)
      ensures Loop(View(), ctxDone, listening, returned)
           == Turn(decode, Loop(old(View()), ctxDone, listens, false), round)
    {
      listening, returned := listens, false;
      var answered: bool := *;
      if round.userCloses {
        var _ := Close(answered);
      }
      if ctxDone && listening && (!cancelled || round.preferCtx) {
        error := Some(ContextDone);
        listening := false;
        var _ := Close(answered);
      } else if cancelled {
        LastPoll(round.outcome);
        returned := true;
      } else {
        returned := PlainPoll(round.outcome);
      }
    }

    /** The cancel branch of the loop. */
    method LastPoll(outcome: Outcome)
      requires Valid() && !done
      modifies this
      ensures Valid() && done
      ensures View() == CloseDone(ClosePipes(Slurp(decode, old(View()), outcome).0, Broken(Canceled)))
    {
      var _, _ := SlurpAllOutput(outcome);
      CloseWithError(Broken(Canceled));
      CloseDoneChannel();
    }

    /** The default branch of the loop. */
    method PlainPoll(outcome: Outcome) returns (finished: bool)
      requires Valid() && !done
      modifies this
      ensures Valid() && (finished <==> done) && finished == Slurp(decode, old(View()), outcome).1
      ensures (var (polled, _, err) := Slurp(decode, old(View()), outcome);
               View() == if finished then CloseDone(polled.(error := err)) else polled)
    {
      var err: Option<CommandError>;
      finished, err := SlurpAllOutput(outcome);
      if finished {
        error := err;
        CloseDoneChannel();
      }
    }
  }
}
