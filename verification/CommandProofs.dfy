/** What the output pump of a command keeps over every sequence of rounds. */
module CommandProofs {

  import opened Wrappers
  import opened Bytes
  import opened SlurpResponse
  import opened Command

  // ----- what the answers to the polls mean, without reference to the loop -----

  /** The Stream elements of every parsed response, in response order and then document order. */
  function Streams(polls: seq<Outcome>): seq<Stream> {
    if |polls| == 0 then []
    else
      var last := polls[|polls| - 1];
      Streams(polls[..|polls| - 1]) + if last.Response? && last.doc.Document? then last.doc.streams else []
  }

  /** An answer after which there is nothing more to poll for: an error other than a timeout, a response
      that cannot be parsed, or Done. */
  predicate Finishing(outcome: Outcome) {
    if outcome.Failure? then !TimedOut(outcome) else outcome.doc.Malformed? || outcome.doc.done
  }

  /** The exit code that an answer assigns, if it assigns one. */
  function ExitOf(outcome: Outcome): Option<int> {
    if !Finishing(outcome) then None
    else if outcome.Failure? then (if Contains(outcome.text, EOF_TEXT) then Some(EXIT_EOF) else None)
    else if outcome.doc.Malformed? then None
    else Some(ExitCodeOf(outcome.doc))
  }

  function ErrorOf(outcome: Outcome): Option<CommandError> {
    if outcome.Failure? then Some(SendFailed(outcome.text))
    else if outcome.doc.Malformed? then Some(BadResponse)
    else None
  }

  function EndingOf(error: Option<CommandError>): Ending {
    if error.None? then EndOfFile else Broken(error.value)
  }

  /** Only an error that reports a timeout, by its kind or by its text, keeps the polling going, and a response that is
      well formed and not Done. */
  lemma FinishingIff(outcome: Outcome)
    ensures Finishing(outcome) <==>
              match outcome
              case Failure(text, urlTimeout) => !urlTimeout && !Occurs(text, "OperationTimeout")
              case Response(doc) => doc == Malformed || doc.done
  {
  }

  lemma LastExitMeans(outcome: Outcome, n: nat)
    requires n < 0x8000_0000_0000_0000
    ensures (var exitCode := if ExitOf(outcome).Some? then ExitOf(outcome).value else 0;
             match outcome
             case Failure(text, urlTimeout) =>
               exitCode == if !urlTimeout && !Occurs(text, "OperationTimeout") && Occurs(text, "EOF") then 16001 else 0
             case Response(doc) =>
               && (doc.Malformed? || !doc.done || doc.exitCode.None? || NotANumber(doc.exitCode.value) ==>
                    exitCode == 0)
               && (doc.Document? && doc.done && doc.exitCode == Some(Decimal(n)) ==> exitCode == n)
               && (doc.Document? && doc.done && doc.exitCode == Some(['-'] + Decimal(n)) ==> exitCode == -(n as int)))
  {
    FinishingIff(outcome);
    if outcome.Response? && outcome.doc.Document? {
      ExitCodeMeans(outcome.doc);
      if outcome.doc.done {
        ExitCodeReads(outcome.doc, n);
      }
    }
  }

  predicate Finished(polls: seq<Outcome>) {
    |polls| > 0 && Finishing(polls[|polls| - 1])
  }

  function LastExit(polls: seq<Outcome>): Option<int> {
    if Finished(polls) then ExitOf(polls[|polls| - 1]) else None
  }

  // ----- invariants -----

  /** Output is conserved: each pipe holds exactly its stream's decoded elements of all parsed responses, in order. */
  ghost predicate Conserved(decode: Decoder, s: State) {
    && s.stdout.written == Content(decode, Streams(s.polls), STDOUT)
    && s.stderr.written == Content(decode, Streams(s.polls), STDERR)
  }

  /** The exit code is assigned at most once, by the poll that finishes the command. */
  ghost predicate ExitAssigned(s: State) {
    var exit := LastExit(s.polls);
    s.exits == (if exit.Some? then [exit.value] else []) && s.exitCode == if exit.Some? then exit.value else 0
  }

  /** No poll follows a finishing one; a command without an identifier makes no request. */
  ghost predicate Polled(s: State) {
    && (forall i :: 0 <= i < |s.polls| - 1 ==> !Finishing(s.polls[i]))
    && (!s.valid ==> s.polls == [] && s.requests == [] && s.cancelCloses == 0)
  }

  /** The pipes end together, and a finishing poll decides how. */
  ghost predicate Endings(s: State) {
    && s.stdout.ending == s.stderr.ending
    && (Finished(s.polls) ==> s.stdout.ending == Some(EndingOf(ErrorOf(s.polls[|s.polls| - 1]))))
  }

  ghost predicate Inv(decode: Decoder, s: State) {
    && Conserved(decode, s)
    && ExitAssigned(s)
    && Polled(s)
    && Endings(s)
    && s.cancelCloses <= 1
  }

  /** A running command: both pipes are open and no poll has finished it. */
  ghost predicate Running(s: State) {
    s.stdout.ending.None? && s.stderr.ending.None? && !Finished(s.polls) && s.doneCloses == 0
  }

  /** Why the loop returned decides the error of the command. */
  function FinalError(l: Loop): Option<CommandError> {
    if !l.command.valid then Some(NoCommand)
    else if !l.listening then Some(ContextDone)
    else if l.command.cancelCloses > 0 then None
    else if |l.command.polls| > 0 then ErrorOf(l.command.polls[|l.command.polls| - 1])
    else None
  }

  ghost predicate Completed(l: Loop) {
    && l.command.doneCloses == 1
    && l.command.stdout.ending.Some?
    && l.command.error == FinalError(l)
    && (l.command.valid ==> |l.command.polls| > 0 && (l.command.cancelCloses == 0 ==> Finished(l.command.polls)))
    && (l.command.valid && !Finished(l.command.polls) ==> l.command.stdout.ending == Some(Broken(Canceled)))
  }

  ghost predicate LoopInv(decode: Decoder, l: Loop) {
    && Inv(decode, l.command)
    && (l.returned ==> Completed(l))
    && (!l.returned ==> Running(l.command) && l.command.error == if l.listening then None else Some(ContextDone))
    && (!l.listening ==> l.ctxDone && (l.command.valid ==> l.command.cancelCloses == 1))
  }

  // ----- one poll -----

  lemma StreamsPush(decode: Decoder, polls: seq<Outcome>, outcome: Outcome, name: bytes)
    ensures Content(decode, Streams(polls + [outcome]), name)
         == Content(decode, Streams(polls), name)
            + if outcome.Response? && outcome.doc.Document? then Content(decode, outcome.doc.streams, name) else []
  {
    assert (polls + [outcome])[..|polls|] == polls;
    if outcome.Response? && outcome.doc.Document? {
      ContentConcat(decode, Streams(polls), outcome.doc.streams, name);
    } else {
      assert Streams(polls) + [] == Streams(polls);
    }
  }

  /** What one poll of a running command does to everything but the pipes and the exit code. */
  ghost predicate PollShape(s: State, outcome: Outcome, r: (State, bool, Option<CommandError>)) {
    && r.0.polls == s.polls + [outcome]
    && r.0.requests == s.requests + [Receive]
    && r.1 == Finishing(outcome)
    && (r.1 ==> r.2 == ErrorOf(outcome))
    && (r.0.error, r.0.cancelCloses, r.0.doneCloses, r.0.valid) == (s.error, s.cancelCloses, s.doneCloses, s.valid)
  }

  lemma PollsOnce(decode: Decoder, s: State, outcome: Outcome)
    requires s.valid
    ensures PollShape(s, outcome, Slurp(decode, s, outcome))
  {
  }

  lemma PollConserves(decode: Decoder, s: State, outcome: Outcome)
    requires s.valid && Conserved(decode, s) && Running(s)
    ensures Conserved(decode, Slurp(decode, s, outcome).0)
  {
    PollsOnce(decode, s, outcome);
    StreamsPush(decode, s.polls, outcome, STDOUT);
    StreamsPush(decode, s.polls, outcome, STDERR);
    assert s.stdout.written + [] == s.stdout.written && s.stderr.written + [] == s.stderr.written;
  }

  lemma PollAssignsExit(decode: Decoder, s: State, outcome: Outcome)
    requires s.valid && ExitAssigned(s) && Running(s)
    ensures ExitAssigned(Slurp(decode, s, outcome).0)
  {
    assert s.exits == [];
  }

  lemma PollEnds(decode: Decoder, s: State, outcome: Outcome)
    requires s.valid && Running(s)
    ensures (var s' := Slurp(decode, s, outcome).0;
             && s'.stdout.ending == s'.stderr.ending
             && s'.stdout.ending == if Finishing(outcome) then Some(EndingOf(ErrorOf(outcome))) else None)
  {
  }

  /** One poll of a running command with an identifier conserves output, and it finishes the command, closing both
      pipes, exactly when its answer is a finishing one. */
  lemma PollKeeps(decode: Decoder, s: State, outcome: Outcome)
    requires s.valid && Inv(decode, s) && Running(s)
    ensures (var r := Slurp(decode, s, outcome);
             PollShape(s, outcome, r) && Inv(decode, r.0) && (!r.1 ==> Running(r.0)))
  {
    PollsOnce(decode, s, outcome);
    PollConserves(decode, s, outcome);
    PollAssignsExit(decode, s, outcome);
    PollEnds(decode, s, outcome);
    var s' := Slurp(decode, s, outcome).0;
    assert s'.polls[|s'.polls| - 1] == outcome;
    assert forall i :: 0 <= i < |s.polls| ==> s'.polls[i] == s.polls[i];
  }

  // ----- the loop -----

  lemma ContextTurn(decode: Decoder, l: Loop, round: Round)
    requires LoopInv(decode, l) && !l.returned && TakesContext(Arrive(l, round), round)
    ensures (var l' := Turn(decode, l, round);
             && LoopInv(decode, l') && !l'.returned && !l'.listening
             && l'.command.polls == l.command.polls && l'.command.valid == l.command.valid
             && (l.command.valid ==> CancelReady(l')))
  {
    assert Inv(decode, Arrive(l, round).command);
  }

  /** A poll after cancellation completes the loop, whatever it brings. */
  lemma CancelCompletes(decode: Decoder, l: Loop, s: State, outcome: Outcome)
    requires LoopInv(decode, l) && !l.returned
    requires s.valid && Inv(decode, s) && Running(s) && s.cancelCloses == 1
    requires s.error == if l.listening then None else Some(ContextDone)
    ensures (var polled := Slurp(decode, s, outcome).0;
             LoopInv(decode, l.(command := CloseDone(ClosePipes(polled, Broken(Canceled))), returned := true)))
  {
    PollKeeps(decode, s, outcome);
    PollEnds(decode, s, outcome);
    var polled := Slurp(decode, s, outcome).0;
    assert polled.polls[|polled.polls| - 1] == outcome;
  }

  /** A cancelled command is polled exactly once more, and then the loop returns. */
  lemma CancelTurn(decode: Decoder, l: Loop, round: Round)
    requires LoopInv(decode, l) && !l.returned
    requires var arrived := Arrive(l, round); CancelReady(arrived) && !TakesContext(arrived, round)
    ensures (var l' := Turn(decode, l, round);
             && LoopInv(decode, l') && l'.returned && l'.listening == l.listening
             && l'.command.polls == l.command.polls + [round.outcome]
             && l'.command.requests == Arrive(l, round).command.requests + [Receive]
             && l'.command.error == if l.listening then None else Some(ContextDone))
  {
    var arrived := Arrive(l, round);
    assert LoopInv(decode, arrived);
    CancelCompletes(decode, arrived, arrived.command, round.outcome);
    PollsOnce(decode, arrived.command, round.outcome);
  }

  /** A finished poll completes the loop. */
  lemma PollCompletes(decode: Decoder, l: Loop, s: State, outcome: Outcome)
    requires LoopInv(decode, l) && !l.returned && l.listening
    requires s.valid && Inv(decode, s) && Running(s) && s.cancelCloses == 0 && Finishing(outcome)
    ensures (var r := Slurp(decode, s, outcome);
             LoopInv(decode, l.(command := CloseDone(r.0.(error := r.2)), returned := true)))
  {
    PollKeeps(decode, s, outcome);
    PollEnds(decode, s, outcome);
  }

  /** An undisturbed turn of a command with an identifier. */
  lemma PollTurn(decode: Decoder, l: Loop, round: Round)
    requires LoopInv(decode, l) && !l.returned && l.command.valid
    requires var arrived := Arrive(l, round); !CancelReady(arrived) && !TakesContext(arrived, round)
    ensures (var l' := Turn(decode, l, round);
             && LoopInv(decode, l') && l'.listening == l.listening && l'.command.valid
             && l'.command.polls == l.command.polls + [round.outcome]
             && l'.command.cancelCloses == 0 && l'.ctxDone == Arrive(l, round).ctxDone
             && (l'.returned <==> Finishing(round.outcome)))
  {
    var arrived := Arrive(l, round);
    PollKeeps(decode, arrived.command, round.outcome);
    if Finishing(round.outcome) {
      PollCompletes(decode, arrived, arrived.command, round.outcome);
    }
  }

  /** A turn of a command without an identifier, unless it takes the context branch. */
  lemma EmptyTurn(decode: Decoder, l: Loop, round: Round)
    requires LoopInv(decode, l) && !l.returned && !l.command.valid && !TakesContext(Arrive(l, round), round)
    ensures LoopInv(decode, Turn(decode, l, round)) && Turn(decode, l, round).returned
  {
    assert Arrive(l, round).command == l.command;
  }

  lemma TurnKeeps(decode: Decoder, l: Loop, round: Round)
    requires LoopInv(decode, l) && !l.returned
    ensures LoopInv(decode, Turn(decode, l, round))
  {
    var arrived := Arrive(l, round);
    if TakesContext(arrived, round) {
      ContextTurn(decode, l, round);
    } else if CancelReady(arrived) {
      CancelTurn(decode, l, round);
    } else if l.command.valid {
      PollTurn(decode, l, round);
    } else {
      EmptyTurn(decode, l, round);
    }
  }

  lemma {:induction false} FetchKeeps(decode: Decoder, l: Loop, rounds: seq<Round>)
    requires LoopInv(decode, l)
    ensures LoopInv(decode, Fetch(decode, l, rounds))
    decreases |rounds|
  {
    if !l.returned && |rounds| > 0 {
      TurnKeeps(decode, l, rounds[0]);
      FetchKeeps(decode, Turn(decode, l, rounds[0]), rounds[1..]);
    }
  }

  lemma StartInv(decode: Decoder, valid: bool)
    ensures LoopInv(decode, StartLoop(valid))
  {
  }

  /** Every run of the loop: the pipes hold exactly the decoded elements of the parsed responses, in order; the done
      channel is closed at most once, when the loop returns, and only after both pipes; the exit code is assigned at
      most once, by the finishing poll. */
  lemma OutputAndCompletion(decode: Decoder, valid: bool, rounds: seq<Round>)
    ensures (var l := Fetch(decode, StartLoop(valid), rounds);
             var s := l.command;
             && s.stdout.written == Content(decode, Streams(s.polls), STDOUT)
             && s.stderr.written == Content(decode, Streams(s.polls), STDERR)
             && s.doneCloses == (if l.returned then 1 else 0)
             && s.cancelCloses <= 1
             && (l.returned <==> s.stdout.ending.Some?) && s.stdout.ending == s.stderr.ending
             && |s.exits| <= 1 && s.exitCode == (if LastExit(s.polls).Some? then LastExit(s.polls).value else 0)
             && (l.returned ==> s.error == FinalError(l)))
  {
    StartInv(decode, valid);
    FetchKeeps(decode, StartLoop(valid), rounds);
  }

  // ----- when the loop stops -----

  /** The answers up to the first finishing one. */
  function UpToFinish(rounds: seq<Round>): seq<Outcome> {
    if |rounds| == 0 then []
    else if Finishing(rounds[0].outcome) then [rounds[0].outcome]
    else [rounds[0].outcome] + UpToFinish(rounds[1..])
  }

  ghost predicate Undisturbed(l: Loop, rounds: seq<Round>) {
    && l.listening && !l.ctxDone && l.command.cancelCloses == 0
    && forall i :: 0 <= i < |rounds| ==> !rounds[i].userCloses && !rounds[i].ctxDone
  }

  lemma LastTurn(decode: Decoder, l: Loop, rounds: seq<Round>)
    requires !l.returned && |rounds| > 0 && Turn(decode, l, rounds[0]).returned
    ensures Fetch(decode, l, rounds) == Turn(decode, l, rounds[0])
  {
  }

  lemma UpToFinishStep(before: seq<Outcome>, rounds: seq<Round>)
    requires |rounds| > 0
    ensures (var first := rounds[0].outcome;
             if Finishing(first) then UpToFinish(rounds) == [first] && Finished([first])
             else
               && before + UpToFinish(rounds) == before + [first] + UpToFinish(rounds[1..])
               && (Finished(UpToFinish(rounds)) <==> Finished(UpToFinish(rounds[1..]))))
  {
  }

  /** What an undisturbed turn leaves to the later turns. */
  lemma UndisturbedTurn(decode: Decoder, l: Loop, rounds: seq<Round>)
    requires LoopInv(decode, l) && !l.returned && l.command.valid && Undisturbed(l, rounds) && |rounds| > 0
    ensures (var next := Turn(decode, l, rounds[0]);
             && next.command.polls == l.command.polls + [rounds[0].outcome]
             && (next.returned <==> Finishing(rounds[0].outcome))
             && LoopInv(decode, next) && next.command.valid && Undisturbed(next, rounds[1..]))
  {
    PollTurn(decode, l, rounds[0]);
  }

  /** Without cancellation the loop polls up to and including the first finishing answer, and then it returns. */
  lemma {:induction false} StopsAtFirstFinish(decode: Decoder, l: Loop, rounds: seq<Round>)
    requires LoopInv(decode, l) && !l.returned && l.command.valid && Undisturbed(l, rounds)
    ensures (var l' := Fetch(decode, l, rounds);
             && l'.command.polls == l.command.polls + UpToFinish(rounds)
             && (l'.returned <==> Finished(UpToFinish(rounds))))
    decreases |rounds|
  {
    if |rounds| > 0 {
      UndisturbedTurn(decode, l, rounds);
      UpToFinishStep(l.command.polls, rounds);
      if Finishing(rounds[0].outcome) {
        LastTurn(decode, l, rounds);
      } else {
        StopsAtFirstFinish(decode, Turn(decode, l, rounds[0]), rounds[1..]);
      }
    }
  }

  /** Once cancellation reaches a command with an identifier, from its caller or from the context, the loop makes
      exactly one more poll and returns within two turns.  The error is that of the context if the loop still listened
      to it and met it alone or preferred it, or had observed it before; it is kept even over the error of that poll.
      Otherwise there is no error. */
  lemma CancelledSoon(decode: Decoder, l: Loop, rounds: seq<Round>)
    requires LoopInv(decode, l) && !l.returned && l.command.valid && |rounds| >= 2
    requires rounds[0].userCloses || l.command.cancelCloses > 0 || ((l.ctxDone || rounds[0].ctxDone) && l.listening)
    ensures (var l' := Fetch(decode, l, rounds);
             var cancelled := rounds[0].userCloses || l.command.cancelCloses > 0;
             var observes := (l.ctxDone || rounds[0].ctxDone) && l.listening && (!cancelled || rounds[0].preferCtx);
             && l'.returned
             && |l'.command.polls| == |l.command.polls| + 1
             && l'.command.error == (if observes || !l.listening then Some(ContextDone) else None))
  {
    if TakesContext(Arrive(l, rounds[0]), rounds[0]) {
      ContextSoon(decode, l, rounds);
    } else {
      CancelSoon(decode, l, rounds);
    }
  }

  /** The cancel branch takes one turn, and leaves the error as it is. */
  lemma CancelSoon(decode: Decoder, l: Loop, rounds: seq<Round>)
    requires LoopInv(decode, l) && !l.returned && |rounds| > 0
    requires var arrived := Arrive(l, rounds[0]); CancelReady(arrived) && !TakesContext(arrived, rounds[0])
    ensures (var l' := Fetch(decode, l, rounds);
             && l'.returned
             && |l'.command.polls| == |l.command.polls| + 1
             && l'.command.error == if l.listening then None else Some(ContextDone))
  {
    CancelTurn(decode, l, rounds[0]);
    LastTurn(decode, l, rounds);
  }

  /** The context branch takes two turns: the first closes the command, the second polls. */
  lemma ContextSoon(decode: Decoder, l: Loop, rounds: seq<Round>)
    requires LoopInv(decode, l) && !l.returned && l.command.valid && |rounds| >= 2
    requires TakesContext(Arrive(l, rounds[0]), rounds[0])
    ensures (var l' := Fetch(decode, l, rounds);
             && l'.returned
             && |l'.command.polls| == |l.command.polls| + 1
             && l'.command.error == Some(ContextDone))
  {
    var next := Turn(decode, l, rounds[0]);
    ContextTurn(decode, l, rounds[0]);
    assert !TakesContext(Arrive(next, rounds[1]), rounds[1]);
    CancelTurn(decode, next, rounds[1]);
    assert rounds[1..][0] == rounds[1];
    LastTurn(decode, next, rounds[1..]);
  }

  /** A command without an identifier makes no request, and its final error is that of the failed check: it replaces
      even an observed context error. */
  lemma NoCommandStops(decode: Decoder, rounds: seq<Round>)
    requires |rounds| >= 2
    ensures (var l := Fetch(decode, StartLoop(false), rounds);
             && l.returned
             && l.command.requests == [] && l.command.polls == []
             && l.command.error == Some(NoCommand)
             && l.command.stdout == Pipe([], Some(Broken(NoCommand))) == l.command.stderr)
  {
    var start := StartLoop(false);
    StartInv(decode, false);
    var next := Turn(decode, start, rounds[0]);
    if TakesContext(Arrive(start, rounds[0]), rounds[0]) {
      var last := Turn(decode, next, rounds[1]);
      assert last.returned && last.command.error == Some(NoCommand);
      LastTurn(decode, next, rounds[1..]);
      assert Fetch(decode, start, rounds) == Fetch(decode, next, rounds[1..]);
    } else {
      LastTurn(decode, start, rounds);
    }
  }
}
