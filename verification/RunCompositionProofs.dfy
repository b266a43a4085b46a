/** What every interleaving of a run keeps, and what holds when it returns. */
module RunCompositionProofs {

  import opened Wrappers
  import opened Bytes
  import opened SlurpResponse
  import opened Command
  import opened CommandProofs
  import opened RunComposition
  import CommandWriter
  import CommandWriterProofs

  // ----- the requests of the goroutines -----

  datatype Tally = Tally(sends: seq<CommandWriter.Frame>, receives: nat, signals: nat, others: nat)

  function Add(t: Tally, wire: Wire): Tally {
    match wire
    case SendInput(frame) => t.(sends := t.sends + [frame])
    case ReceiveOutput => t.(receives := t.receives + 1)
    case SignalCommand => t.(signals := t.signals + 1)
    case _ => t.(others := t.others + 1)
  }

  /** The Send requests in order, and how many there are of the other kinds. */
  function Count(wires: seq<Wire>): Tally {
    if |wires| == 0 then Tally([], 0, 0, 0) else Add(Count(wires[..|wires| - 1]), wires[|wires| - 1])
  }

  lemma CountPush(wires: seq<Wire>, wire: Wire)
    ensures Count(wires + [wire]) == Add(Count(wires), wire)
  {
    assert (wires + [wire])[..|wires|] == wires;
  }

  // ----- the pump refines the loop of Command -----

  lemma {:induction false} FetchAppend(decode: Decoder, l: Loop, rounds: seq<Round>, round: Round)
    requires !Fetch(decode, l, rounds).returned
    ensures Fetch(decode, l, rounds + [round]) == Turn(decode, Fetch(decode, l, rounds), round)
    decreases |rounds|
  {
    if |rounds| == 0 || l.returned {
      assert (rounds + [round])[1..] == [];
    } else {
      assert (rounds + [round])[1..] == rounds[1..] + [round];
      FetchAppend(decode, Turn(decode, l, rounds[0]), rounds[1..], round);
    }
  }

  /** The loop of Command after the turns that the pump has completed. */
  function LoopOf(job: Job, w: World): Loop {
    Fetch(job.decode, StartLoop(w.command.valid), w.rounds)
  }

  /** The caller is past its own Close. */
  predicate HasClosed(main: Main) { main.Deleting? || main.Returned? }

  /** What the caller's Close has done so far to the command that the pump left behind. */
  function Closing(main: Main, s: State): State {
    if main.SendSignal? && s.cancelCloses == 0 then s.(cancelCloses := 1)
    else if HasClosed(main) then CloseStep(s)
    else s
  }

  /** The poll branch that `choice` describes: a turn with this round does not take the context branch. */
  ghost predicate Chosen(l: Loop, w: World, choice: Choice) {
    && !l.returned && w.listening == l.listening
    && (l.ctxDone ==> choice.seen) && (choice.seen ==> w.ctx)
    && choice.last == (l.command.cancelCloses > 0)
    && !(choice.seen && l.listening && (!choice.last || choice.prefer))
  }

  function Observed(l: Loop): State {
    l.command.(error := Some(ContextDone))
  }

  ghost predicate OnContext(l: Loop, w: World, prefer: bool) {
    !l.returned && l.listening && !w.listening && w.ctx && (l.command.cancelCloses == 0 || prefer)
  }

  /** Every step of the pump stands somewhere in a turn of the loop, or after its end. */
  ghost predicate Refines(decode: Decoder, l: Loop, w: World) {
    match w.fetcher
    case Idle => true
    case Selecting => !l.returned && w.listening == l.listening && w.command == l.command
    case Polling(choice) => Chosen(l, w, choice) && w.command == l.command
    case WritingOut(choice, doc) =>
      && Chosen(l, w, choice) && l.command.valid && doc.Document?
      && w.command == WriteStdout(decode, Answered(l.command, Response(doc)), doc)
    case WritingErr(choice, doc) =>
      && Chosen(l, w, choice) && l.command.valid && doc.Document?
      && w.command == WriteStderr(decode, WriteStdout(decode, Answered(l.command, Response(doc)), doc), doc)
    case ContextTest(prefer) => OnContext(l, w, prefer) && w.command == Observed(l)
    case ContextClose(prefer) =>
      OnContext(l, w, prefer) && w.command == Observed(l) && l.command.valid && l.command.cancelCloses == 0
    case ContextSignal(prefer) =>
      OnContext(l, w, prefer) && w.command == Observed(l).(cancelCloses := 1) && l.command.valid
    case ClosingDone => l.returned && w.listening == l.listening && CloseDone(w.command) == l.command
    case Gone => l.returned && w.listening == l.listening && w.command == Closing(w.main, l.command)
  }

  ghost predicate Pumped(decode: Decoder, l: Loop, w: World) {
    (l.ctxDone ==> w.ctx) && w.command.valid == l.command.valid && Refines(decode, l, w)
  }

  predicate Writing(fetcher: Fetcher) { fetcher.WritingOut? || fetcher.WritingErr? }

  // ----- who can be where -----

  predicate EarlyError(error: Option<RunError>) {
    error == Some(CreateFailed) || error == Some(ExecuteFailed)
  }

  /** The command was never started, or not yet. */
  predicate Unstarted(main: Main) {
    main.Creating? || main.Executing? || (HasClosed(main) && EarlyError(main.error))
  }

  /** The done channel orders the caller after the pump, and the wait group orders its Close after the copiers. */
  ghost predicate Places(w: World) {
    && (w.main.Deleting? ==> w.main.error != Some(CreateFailed))
    && (w.fetcher.Idle? ==> w == START.(main := w.main, ctx := w.ctx, log := w.log))
    && (w.fetcher.Idle? <==> Unstarted(w.main))
    && (!Unstarted(w.main) && !w.main.WaitDone? ==> w.fetcher.Gone?)
    && (!Unstarted(w.main) && !w.main.WaitDone? && !w.main.WaitGroup? ==> w.stdinDone && w.out.done && w.err.done)
    && (w.main.CloseChannel? ==> w.command.valid && w.command.cancelCloses == 0)
    && (w.main.SendSignal? ==> w.command.valid)
    && (HasClosed(w.main) && EarlyError(w.main.error) ==> w.main.exitCode == 1)
    && (HasClosed(w.main) && !EarlyError(w.main.error) ==> w.main == AsResult(w.main, w.command))
  }

  /** The caller's result is what the command ended with. */
  function AsResult(main: Main, s: State): Main {
    var result := ResultOf(s);
    if main.Returned? then Returned(result.exitCode, result.error) else result
  }

  // ----- the log -----

  const OPENING: seq<Wire> := [CreateShell, ExecuteCommand]

  /** All requests so far, from where the caller stands and what the goroutines have sent. */
  function Log(w: World): seq<Wire> {
    match w.main
    case Creating => []
    case Executing => [CreateShell]
    case Deleting(_, error) => OPENING + w.mid + Signals(w, error)
    case Returned(_, error) =>
      if error == Some(CreateFailed) then [CreateShell] else OPENING + w.mid + Signals(w, error) + [DeleteShell]
    case _ => OPENING + w.mid
  }

  function Signals(w: World, error: Option<RunError>): seq<Wire> {
    if EarlyError(error) || !w.command.valid then [] else [SignalCommand]
  }

  ghost predicate Logged(w: World) {
    w.log == Log(w)
  }

  // ----- the goroutines' requests -----

  /** A poll whose answer is still out. */
  function Pending(fetcher: Fetcher): nat { if fetcher.Polling? then 1 else 0 }

  predicate Signalled(w: World) {
    w.command.valid && !w.listening && !w.fetcher.ContextTest? && !w.fetcher.ContextClose? && !w.fetcher.ContextSignal?
  }

  /** The stdin goroutine's requests are sent in its own order, each poll is one Receive request, and the pump signals
      the command once if it has observed the context. */
  ghost predicate Tallied(frames: seq<CommandWriter.Frame>, w: World) {
    && w.sent <= |frames|
    && (w.stdinDone ==> w.sent == |frames|)
    && Count(w.mid) == Expected(frames[..w.sent], w)
  }

  function Expected(sends: seq<CommandWriter.Frame>, w: World): Tally {
    Tally(sends, if w.command.valid then |w.command.polls| + Pending(w.fetcher) else 0,
          if Signalled(w) then 1 else 0, 0)
  }

  // ----- the copiers -----

  ghost predicate Copies(copier: Copier, pipe: Pipe) {
    && copier.delivered <= copier.taken <= |pipe.written|
    && (copier.failed ==> copier.done)
    && (!copier.failed ==> copier.delivered == copier.taken)
    && (copier.done && !copier.failed ==> copier.taken == |pipe.written| && pipe.ending.Some?)
  }

  /** The pump leaves a write only when its bytes are taken. */
  ghost predicate Drained(w: World) {
    && (!w.fetcher.WritingOut? ==> w.out.taken == |w.command.stdout.written|)
    && (!w.fetcher.WritingErr? ==> w.err.taken == |w.command.stderr.written|)
  }

  ghost predicate Delivering(w: World) {
    Copies(w.out, w.command.stdout) && Copies(w.err, w.command.stderr) && Drained(w)
  }

  ghost predicate Inv(job: Job, w: World)
    requires HasRoom(job)
  {
    && Pumped(job.decode, LoopOf(job, w), w)
    && Places(w)
    && Logged(w)
    && Tallied(Frames(job, w.command.valid), w)
    && Delivering(w)
  }

  /** The part of the loop's invariant that counts the closings of its channels. */
  predicate Counted(l: Loop) {
    l.command.doneCloses == (if l.returned then 1 else 0) && l.command.cancelCloses <= 1
  }

  lemma LoopHolds(job: Job, w: World)
    ensures LoopInv(job.decode, LoopOf(job, w)) && Counted(LoopOf(job, w))
  {
    StartInv(job.decode, w.command.valid);
    FetchKeeps(job.decode, StartLoop(w.command.valid), w.rounds);
  }

  // ----- the caller's steps -----

  lemma StartHolds(job: Job)
    requires HasRoom(job)
    ensures Inv(job, START)
  {
  }

  lemma CreatedKeeps(job: Job, w: World, ok: bool)
    requires HasRoom(job) && Inv(job, w) && w.main.Creating?
    ensures Inv(job, w.(log := w.log + [CreateShell],
                       main := if ok then Executing else Returned(1, Some(CreateFailed))))
  {
  }

  lemma ExecutedKeeps(job: Job, w: World, ok: bool, valid: bool)
    requires HasRoom(job) && Inv(job, w) && w.main.Executing?
    ensures Inv(job, OpenedStep(w, ok, valid))
  {
    assert w == START.(main := Executing, ctx := w.ctx, log := [CreateShell]);
  }

  lemma OpenedKeeps(job: Job, w: World, ok: bool, valid: bool)
    requires HasRoom(job) && Inv(job, w)
    ensures Inv(job, OpenedStep(w, ok, valid))
  {
    if w.main.Creating? {
      CreatedKeeps(job, w, ok);
    } else if w.main.Executing? {
      ExecutedKeeps(job, w, ok, valid);
    }
  }

  /** The done channel is closed only by the last step of the pump. */
  lemma DoneMeansGone(decode: Decoder, l: Loop, w: World)
    requires Counted(l) && Pumped(decode, l, w) && !w.fetcher.Idle? && w.command.doneCloses > 0
    ensures w.fetcher.Gone?
  {
  }

  lemma CallerPlaces(decode: Decoder, l: Loop, w: World)
    requires Counted(l) && Pumped(decode, l, w) && Places(w)
    ensures Places(CallerStep(w))
  {
    if w.main.WaitDone? && w.command.doneCloses > 0 {
      DoneMeansGone(decode, l, w);
    }
  }

  lemma CallerPumped(decode: Decoder, l: Loop, w: World)
    requires Counted(l) && Pumped(decode, l, w) && Places(w)
    ensures Pumped(decode, l, CallerStep(w))
  {
    if w.main.WaitDone? && w.command.doneCloses > 0 {
      DoneMeansGone(decode, l, w);
    }
  }

  lemma CallerLogged(w: World)
    requires Places(w) && Logged(w)
    ensures Logged(CallerStep(w))
  {
    if w.main.CloseTest? {
      assert OPENING + w.mid + [] == OPENING + w.mid;
    }
  }

  /** What the caller leaves alone. */
  ghost predicate SameWork(w: World, w': World) {
    && (w'.fetcher, w'.listening, w'.ctx, w'.rounds) == (w.fetcher, w.listening, w.ctx, w.rounds)
    && (w'.sent, w'.stdinDone, w'.out, w'.err, w'.mid) == (w.sent, w.stdinDone, w.out, w.err, w.mid)
    && (w'.command.valid, w'.command.polls) == (w.command.valid, w.command.polls)
    && (w'.command.stdout, w'.command.stderr) == (w.command.stdout, w.command.stderr)
  }

  lemma CallerFrame(w: World)
    ensures SameWork(w, CallerStep(w))
  {
  }

  lemma SameWorkHolds(job: Job, w: World, w': World)
    requires HasRoom(job) && SameWork(w, w') && Tallied(Frames(job, w.command.valid), w) && Delivering(w)
    ensures Tallied(Frames(job, w'.command.valid), w') && Delivering(w')
    ensures LoopOf(job, w') == LoopOf(job, w)
  {
  }

  lemma CallerKeeps(job: Job, w: World)
    requires HasRoom(job) && Inv(job, w)
    ensures Inv(job, CallerStep(w))
  {
    LoopHolds(job, w);
    CallerPlaces(job.decode, LoopOf(job, w), w);
    CallerPumped(job.decode, LoopOf(job, w), w);
    CallerLogged(w);
    CallerFrame(w);
    SameWorkHolds(job, w, CallerStep(w));
  }

  // ----- the pump's steps -----

  /** What a step of a working pump leaves alone, apart from the requests that it makes. */
  ghost predicate PumpFrame(w: World, w': World, wires: seq<Wire>) {
    && w.main == w'.main == WaitDone && !w'.fetcher.Idle?
    && (w'.sent, w'.stdinDone, w'.out, w'.err, w'.ctx) == (w.sent, w.stdinDone, w.out, w.err, w.ctx)
    && w'.command.valid == w.command.valid
    && w'.mid == w.mid + wires && w'.log == w.log + wires
  }

  /** While the pump works, the caller waits for it. */
  lemma CallerWaits(w: World)
    requires Places(w) && !w.fetcher.Idle? && !w.fetcher.Gone?
    ensures w.main == WaitDone
  {
  }

  lemma PumpFrameHolds(w: World, w': World, wires: seq<Wire>)
    requires Places(w) && Logged(w) && PumpFrame(w, w', wires)
    ensures Places(w') && Logged(w')
  {
    assert OPENING + w.mid + wires == OPENING + (w.mid + wires);
  }

  function Asked(w: World): seq<Wire> {
    if w.command.valid then [ReceiveOutput] else []
  }

  lemma SelectPumped(decode: Decoder, l: Loop, w: World, prefer: bool)
    requires Pumped(decode, l, w)
    ensures Pumped(decode, l, SelectStep(w, prefer))
  {
  }

  lemma SelectTallied(frames: seq<CommandWriter.Frame>, w: World, prefer: bool)
    requires w.fetcher.Selecting? && Tallied(frames, w)
    ensures Tallied(frames, SelectStep(w, prefer))
  {
    var w' := SelectStep(w, prefer);
    if w'.fetcher.Polling? && w.command.valid {
      CountPush(w.mid, ReceiveOutput);
      assert w'.mid == w.mid + [ReceiveOutput];
    } else {
      assert w'.mid == w.mid;
    }
    assert Signalled(w') == Signalled(w);
  }

  lemma LoopAppends(job: Job, w: World, w': World, round: Round)
    requires !LoopOf(job, w).returned
    requires w'.command.valid == w.command.valid && w'.rounds == w.rounds + [round]
    ensures LoopOf(job, w') == Turn(job.decode, LoopOf(job, w), round)
  {
    FetchAppend(job.decode, StartLoop(w.command.valid), w.rounds, round);
  }

  /** A step of the pump in the middle of a turn. */
  lemma WithinTurn(job: Job, w: World, w': World, wires: seq<Wire>)
    requires HasRoom(job) && Places(w) && Logged(w) && PumpFrame(w, w', wires) && w'.rounds == w.rounds
    requires Pumped(job.decode, LoopOf(job, w), w') && Delivering(w') && Tallied(Frames(job, w.command.valid), w')
    ensures Inv(job, w')
  {
    PumpFrameHolds(w, w', wires);
    assert LoopOf(job, w') == LoopOf(job, w);
  }

  /** The last step of a turn. */
  lemma TurnEnds(job: Job, w: World, w': World, wires: seq<Wire>, round: Round)
    requires HasRoom(job) && Places(w) && Logged(w) && PumpFrame(w, w', wires) && w'.rounds == w.rounds + [round]
    requires !LoopOf(job, w).returned && Pumped(job.decode, Turn(job.decode, LoopOf(job, w), round), w')
    requires Delivering(w') && Tallied(Frames(job, w.command.valid), w')
    ensures Inv(job, w')
  {
    PumpFrameHolds(w, w', wires);
    LoopAppends(job, w, w', round);
  }

  lemma SelectWorks(w: World, prefer: bool)
    requires w.main == WaitDone && w.fetcher.Selecting?
    ensures (var w' := SelectStep(w, prefer);
             PumpFrame(w, w', if w'.fetcher.ContextTest? then [] else Asked(w)) && w'.rounds == w.rounds)
  {
    assert w.mid + [] == w.mid && w.log + [] == w.log;
  }

  lemma SelectDelivers(w: World, prefer: bool)
    requires w.fetcher.Selecting? && Delivering(w)
    ensures Delivering(SelectStep(w, prefer))
  {
  }

  lemma SelectKeeps(job: Job, w: World, prefer: bool)
    requires HasRoom(job) && Inv(job, w)
    ensures Inv(job, SelectStep(w, prefer))
  {
    if w.fetcher.Selecting? {
      var w' := SelectStep(w, prefer);
      CallerWaits(w);
      SelectWorks(w, prefer);
      SelectDelivers(w, prefer);
      SelectPumped(job.decode, LoopOf(job, w), w, prefer);
      SelectTallied(Frames(job, w.command.valid), w, prefer);
      WithinTurn(job, w, w', if w'.fetcher.ContextTest? then [] else Asked(w));
    }
  }

  /** The last step of a turn on the context branch. */
  lemma ContextPumped(decode: Decoder, l: Loop, w: World, prefer: bool)
    requires Counted(l) && Pumped(decode, l, w)
    requires w.fetcher == ContextSignal(prefer) || (w.fetcher == ContextTest(prefer) && !w.command.valid)
    ensures Pumped(decode, Turn(decode, l, ContextRound(prefer)), CloseSteps(w))
  {
    var l' := Turn(decode, l, ContextRound(prefer));
    assert l' == Loop(CloseStep(Observed(l)), true, false, false);
  }

  /** The other steps of Close do not end a turn. */
  lemma ClosePumped(decode: Decoder, l: Loop, w: World)
    requires Counted(l) && Pumped(decode, l, w) && Places(w)
    requires !w.fetcher.ContextSignal? && !(w.fetcher.ContextTest? && !w.command.valid)
    ensures Pumped(decode, l, CloseSteps(w))
  {
  }

  lemma CloseTallied(frames: seq<CommandWriter.Frame>, decode: Decoder, l: Loop, w: World)
    requires Pumped(decode, l, w) && Tallied(frames, w)
    ensures Tallied(frames, CloseSteps(w))
  {
    CountPush(w.mid, SignalCommand);
  }

  function Signal(w: World): seq<Wire> {
    if w.fetcher.ContextSignal? then [SignalCommand] else []
  }

  lemma SignalWorks(w: World)
    requires w.main == WaitDone && w.fetcher.ContextSignal?
    ensures PumpFrame(w, CloseSteps(w), [SignalCommand])
  {
  }

  lemma CloseWorks(w: World)
    requires w.main == WaitDone && !w.fetcher.Idle? && !w.fetcher.ContextSignal?
    ensures PumpFrame(w, CloseSteps(w), [])
  {
    assert w.mid + [] == w.mid && w.log + [] == w.log;
  }

  /** The pipes and their copiers are as before, and nothing is being written. */
  ghost predicate SamePipes(w: World, w': World) {
    && (w'.out, w'.err, w'.command.stdout, w'.command.stderr) == (w.out, w.err, w.command.stdout, w.command.stderr)
    && !Writing(w.fetcher) && !Writing(w'.fetcher)
  }

  lemma SamePipesDeliver(w: World, w': World)
    requires Delivering(w) && SamePipes(w, w')
    ensures Delivering(w')
  {
  }

  lemma ClosePipesAlone(w: World)
    requires !Writing(w.fetcher)
    ensures SamePipes(w, CloseSteps(w))
  {
  }

  lemma CloseEndsTurn(job: Job, w: World)
    requires HasRoom(job) && Inv(job, w)
    requires w.fetcher.ContextSignal? || (w.fetcher.ContextTest? && !w.command.valid)
    ensures Inv(job, CloseSteps(w))
  {
    LoopHolds(job, w);
    CallerWaits(w);
    if w.fetcher.ContextSignal? {
      SignalWorks(w);
    } else {
      CloseWorks(w);
    }
    ClosePipesAlone(w);
    SamePipesDeliver(w, CloseSteps(w));
    CloseTallied(Frames(job, w.command.valid), job.decode, LoopOf(job, w), w);
    ContextPumped(job.decode, LoopOf(job, w), w, w.fetcher.prefer);
    TurnEnds(job, w, CloseSteps(w), Signal(w), ContextRound(w.fetcher.prefer));
  }

  lemma CloseWithinTurn(job: Job, w: World)
    requires HasRoom(job) && Inv(job, w) && !w.fetcher.Idle? && !w.fetcher.Gone? && !Writing(w.fetcher)
    requires !w.fetcher.ContextSignal? && !(w.fetcher.ContextTest? && !w.command.valid)
    ensures Inv(job, CloseSteps(w))
  {
    LoopHolds(job, w);
    CallerWaits(w);
    CloseWorks(w);
    ClosePipesAlone(w);
    SamePipesDeliver(w, CloseSteps(w));
    CloseTallied(Frames(job, w.command.valid), job.decode, LoopOf(job, w), w);
    ClosePumped(job.decode, LoopOf(job, w), w);
    WithinTurn(job, w, CloseSteps(w), []);
  }

  lemma CloseKeeps(job: Job, w: World)
    requires HasRoom(job) && Inv(job, w) && !Writing(w.fetcher)
    ensures Inv(job, CloseSteps(w))
  {
    if w.fetcher.ContextSignal? || (w.fetcher.ContextTest? && !w.command.valid) {
      CloseEndsTurn(job, w);
    } else if !w.fetcher.Idle? && !w.fetcher.Gone? {
      CloseWithinTurn(job, w);
    }
  }

  // ----- the end of a poll -----

  /** The end of a poll is the end of a turn of the loop. */
  lemma EndPollPumped(decode: Decoder, l: Loop, w: World, choice: Choice, outcome: Outcome)
    requires Chosen(l, w, choice)
    ensures Pumped(decode, Turn(decode, l, RoundOf(choice, outcome)),
                   EndPoll(w, choice, outcome, Slurp(decode, l.command, outcome)))
  {
    var arrived := Arrive(l, RoundOf(choice, outcome));
    assert arrived == l.(ctxDone := choice.seen) && !TakesContext(arrived, RoundOf(choice, outcome));
    SlurpFrame(decode, l.command, outcome);
  }

  lemma SlurpFrame(decode: Decoder, s: State, outcome: Outcome)
    ensures (var s' := Slurp(decode, s, outcome).0;
             && s'.valid == s.valid
             && s'.polls == (if s.valid then s.polls + [outcome] else s.polls))
  {
  }

  /** What the end of a poll does to the rest of the world, once its writes are done. */
  lemma EndPollWorks(w: World, choice: Choice, outcome: Outcome, slurped: (State, bool, Option<CommandError>))
    requires w.main == WaitDone && slurped.0.valid == w.command.valid
    ensures (var w' := EndPoll(w, choice, outcome, slurped);
             && PumpFrame(w, w', []) && w'.rounds == w.rounds + [RoundOf(choice, outcome)]
             && w'.listening == w.listening && w'.command.polls == slurped.0.polls
             && (w'.fetcher.Selecting? || w'.fetcher.ClosingDone?))
  {
    assert w.mid + [] == w.mid && w.log + [] == w.log;
  }

  /** Closing a pipe does not disturb its reader. */
  ghost predicate AtMostClosed(before: Pipe, after: Pipe) {
    after.written == before.written && (before.ending.Some? ==> after.ending == before.ending)
  }

  lemma EndPollDelivers(w: World, choice: Choice, outcome: Outcome, slurped: (State, bool, Option<CommandError>))
    requires Copies(w.out, w.command.stdout) && Copies(w.err, w.command.stderr)
    requires w.out.taken == |w.command.stdout.written| && w.err.taken == |w.command.stderr.written|
    requires AtMostClosed(w.command.stdout, slurped.0.stdout) && AtMostClosed(w.command.stderr, slurped.0.stderr)
    ensures Delivering(EndPoll(w, choice, outcome, slurped))
  {
  }

  lemma FinishPollFrame(s: State, doc: Document)
    requires doc.Document?
    ensures (var s' := FinishPoll(s, doc);
             && AtMostClosed(s.stdout, s'.stdout) && AtMostClosed(s.stderr, s'.stderr)
             && s'.valid == s.valid && s'.polls == s.polls)
  {
  }

  /** An answer without a document writes nothing. */
  lemma SlurpOnlyCloses(decode: Decoder, s: State, outcome: Outcome)
    requires !(s.valid && outcome.Response? && outcome.doc.Document?)
    ensures (var s' := Slurp(decode, s, outcome).0;
             AtMostClosed(s.stdout, s'.stdout) && AtMostClosed(s.stderr, s'.stderr))
  {
  }

  lemma EndPollTallied(frames: seq<CommandWriter.Frame>, w: World, w': World)
    requires Tallied(frames, w) && !w.fetcher.Idle? && PumpFrame(w, w', []) && w'.listening == w.listening
    requires w.fetcher.Polling? || w.fetcher.WritingOut? || w.fetcher.WritingErr?
    requires !w'.fetcher.Polling? && !w'.fetcher.ContextTest? && !w'.fetcher.ContextClose? && !w'.fetcher.ContextSignal?
    requires w.command.valid ==> |w'.command.polls| == |w.command.polls| + Pending(w.fetcher)
    ensures Tallied(frames, w')
  {
    assert w'.mid == w.mid;
  }

  /** The end of a poll, its writes being done. */
  lemma EndPollKeeps(job: Job, w: World, choice: Choice, outcome: Outcome)
    requires HasRoom(job) && Places(w) && Logged(w) && w.main == WaitDone
    requires Chosen(LoopOf(job, w), w, choice)
    requires (var slurped := Slurp(job.decode, LoopOf(job, w).command, outcome);
              var w' := EndPoll(w, choice, outcome, slurped);
              && slurped.0.valid == w.command.valid
              && Delivering(w') && Tallied(Frames(job, w.command.valid), w'))
    ensures Inv(job, EndPoll(w, choice, outcome, Slurp(job.decode, LoopOf(job, w).command, outcome)))
  {
    var slurped := Slurp(job.decode, LoopOf(job, w).command, outcome);
    EndPollWorks(w, choice, outcome, slurped);
    EndPollPumped(job.decode, LoopOf(job, w), w, choice, outcome);
    TurnEnds(job, w, EndPoll(w, choice, outcome, slurped), [], RoundOf(choice, outcome));
  }

  lemma AnswerEnds(job: Job, w: World, outcome: Outcome)
    requires HasRoom(job) && Inv(job, w) && w.fetcher.Polling?
    requires !(w.command.valid && outcome.Response? && outcome.doc.Document?)
    ensures Inv(job, AnswerStep(job.decode, w, outcome))
  {
    var choice := w.fetcher.choice;
    var slurped := Slurp(job.decode, w.command, outcome);
    CallerWaits(w);
    SlurpFrame(job.decode, w.command, outcome);
    SlurpOnlyCloses(job.decode, w.command, outcome);
    EndPollWorks(w, choice, outcome, slurped);
    EndPollDelivers(w, choice, outcome, slurped);
    EndPollTallied(Frames(job, w.command.valid), w, EndPoll(w, choice, outcome, slurped));
    EndPollKeeps(job, w, choice, outcome);
  }

  lemma WriteErrEnds(job: Job, w: World)
    requires HasRoom(job) && Inv(job, w) && w.fetcher.WritingErr?
    ensures Inv(job, WriteStep(job.decode, w))
  {
    if w.err.taken == |w.command.stderr.written| {
      var (choice, doc) := (w.fetcher.choice, w.fetcher.doc);
      var slurped := (FinishPoll(w.command, doc), doc.done, None);
      CallerWaits(w);
      FinishPollFrame(w.command, doc);
      EndPollWorks(w, choice, Response(doc), slurped);
      EndPollDelivers(w, choice, Response(doc), slurped);
      EndPollTallied(Frames(job, w.command.valid), w, EndPoll(w, choice, Response(doc), slurped));
      assert slurped == Slurp(job.decode, LoopOf(job, w).command, Response(doc));
      EndPollKeeps(job, w, choice, Response(doc));
    }
  }

  // ----- the writes of a poll -----

  lemma PipeGrows(copier: Copier, pipe: Pipe, data: bytes)
    requires Copies(copier, pipe)
    ensures Copies(copier, PipeWrite(pipe, data))
  {
  }

  lemma AnswerWrites(job: Job, w: World, outcome: Outcome)
    requires HasRoom(job) && Inv(job, w) && w.fetcher.Polling?
    requires w.command.valid && outcome.Response? && outcome.doc.Document?
    ensures Inv(job, AnswerStep(job.decode, w, outcome))
  {
    var w' := AnswerStep(job.decode, w, outcome);
    CallerWaits(w);
    assert w.mid + [] == w.mid && w.log + [] == w.log;
    PipeGrows(w.out, w.command.stdout, Content(job.decode, outcome.doc.streams, STDOUT));
    EndPollTallied(Frames(job, w.command.valid), w, w');
    WithinTurn(job, w, w', []);
  }

  lemma WriteOutWorks(decode: Decoder, w: World)
    requires w.main == WaitDone && w.fetcher.WritingOut?
    ensures (var w' := WriteStep(decode, w);
             PumpFrame(w, w', []) && w'.rounds == w.rounds && w'.listening == w.listening
             && w'.command.polls == w.command.polls && Writing(w'.fetcher))
  {
    assert w.mid + [] == w.mid && w.log + [] == w.log;
  }

  lemma WriteOutPumped(decode: Decoder, l: Loop, w: World)
    requires Pumped(decode, l, w) && w.fetcher.WritingOut?
    ensures Pumped(decode, l, WriteStep(decode, w))
  {
  }

  lemma WriteOutDelivers(decode: Decoder, w: World)
    requires Delivering(w) && w.fetcher.WritingOut?
    ensures Delivering(WriteStep(decode, w))
  {
    if w.fetcher.doc.Document? {
      PipeGrows(w.err, w.command.stderr, Content(decode, w.fetcher.doc.streams, STDERR));
    }
  }

  lemma WriteOutEnds(job: Job, w: World)
    requires HasRoom(job) && Inv(job, w) && w.fetcher.WritingOut?
    ensures Inv(job, WriteStep(job.decode, w))
  {
    CallerWaits(w);
    WriteOutWorks(job.decode, w);
    WriteOutPumped(job.decode, LoopOf(job, w), w);
    WriteOutDelivers(job.decode, w);
    EndPollTallied(Frames(job, w.command.valid), w, WriteStep(job.decode, w));
    WithinTurn(job, w, WriteStep(job.decode, w), []);
  }

  lemma AnswerKeeps(job: Job, w: World, outcome: Outcome)
    requires HasRoom(job) && Inv(job, w)
    ensures Inv(job, AnswerStep(job.decode, w, outcome))
  {
    if w.fetcher.Polling? {
      if w.command.valid && outcome.Response? && outcome.doc.Document? {
        AnswerWrites(job, w, outcome);
      } else {
        AnswerEnds(job, w, outcome);
      }
    }
  }

  lemma PumpKeeps(job: Job, w: World)
    requires HasRoom(job) && Inv(job, w)
    ensures Inv(job, PumpStep(job.decode, w))
  {
    if w.fetcher.WritingOut? {
      WriteOutEnds(job, w);
    } else if w.fetcher.WritingErr? {
      WriteErrEnds(job, w);
    } else {
      CloseKeeps(job, w);
    }
  }

  // ----- the copying goroutines -----

  lemma StdinTallied(frames: seq<CommandWriter.Frame>, w: World)
    requires Tallied(frames, w)
    ensures Tallied(frames, StdinStep(frames, w))
  {
    if w.sent < |frames| {
      CountPush(w.mid, SendInput(frames[w.sent]));
      assert frames[..w.sent] + [frames[w.sent]] == frames[..w.sent + 1];
    }
  }

  /** While a copier works, the caller has not reached its Close. */
  lemma CopierPlaces(w: World, w': World)
    requires Places(w) && !w.fetcher.Idle? && (!w.stdinDone || !w.out.done || !w.err.done)
    requires w'.main == w.main && w'.fetcher == w.fetcher && w'.command == w.command
    ensures (w.main.WaitDone? || w.main.WaitGroup?) && Places(w')
  {
  }

  lemma StdinLogged(frames: seq<CommandWriter.Frame>, w: World)
    requires (w.main.WaitDone? || w.main.WaitGroup?) && Logged(w)
    ensures Logged(StdinStep(frames, w))
  {
    if w.sent < |frames| {
      assert OPENING + w.mid + [SendInput(frames[w.sent])] == OPENING + (w.mid + [SendInput(frames[w.sent])]);
    }
  }

  /** A step that leaves the caller and the pump alone. */
  ghost predicate Aside(w: World, w': World) {
    && (w'.main, w'.fetcher, w'.listening, w'.ctx) == (w.main, w.fetcher, w.listening, w.ctx)
    && (w'.command, w'.rounds) == (w.command, w.rounds)
  }

  lemma AsidePumped(decode: Decoder, l: Loop, w: World, w': World)
    requires Aside(w, w') && Pumped(decode, l, w)
    ensures Pumped(decode, l, w')
  {
  }

  lemma AsideHolds(job: Job, w: World, w': World)
    requires HasRoom(job) && Inv(job, w) && Aside(w, w')
    requires Places(w') && Logged(w') && Tallied(Frames(job, w.command.valid), w') && Delivering(w')
    ensures Inv(job, w')
  {
    assert LoopOf(job, w') == LoopOf(job, w);
    AsidePumped(job.decode, LoopOf(job, w), w, w');
  }

  lemma StdinAside(frames: seq<CommandWriter.Frame>, w: World)
    requires Delivering(w)
    ensures Aside(w, StdinStep(frames, w)) && Delivering(StdinStep(frames, w))
  {
  }

  lemma StdinKeeps(job: Job, w: World)
    requires HasRoom(job) && Inv(job, w)
    ensures Inv(job, Step(job, w, Stdin))
  {
    if !w.fetcher.Idle? && !w.stdinDone {
      var frames := Frames(job, w.command.valid);
      StdinAside(frames, w);
      CopierPlaces(w, StdinStep(frames, w));
      StdinTallied(frames, w);
      StdinLogged(frames, w);
      AsideHolds(job, w, StdinStep(frames, w));
    }
  }

  lemma CopierStep(copier: Copier, pipe: Pipe, copy: Copy)
    requires Copies(copier, pipe)
    ensures (var copier' := CopyStep(copier, pipe, copy);
             && Copies(copier', pipe)
             && (copier.taken == |pipe.written| ==> copier'.taken == |pipe.written|)
             && (copier.done ==> copier' == copier))
  {
  }

  /** A step of a copier changes nothing but the copiers. */
  lemma CopierHolds(job: Job, w: World, out: Copier, err: Copier)
    requires HasRoom(job) && Inv(job, w) && !w.fetcher.Idle?
    requires (!w.out.done || out == w.out) && (!w.err.done || err == w.err)
    requires Delivering(w.(out := out, err := err))
    ensures Inv(job, w.(out := out, err := err))
  {
    var w' := w.(out := out, err := err);
    if !w.out.done || !w.err.done {
      CopierPlaces(w, w');
      AsideHolds(job, w, w');
    } else {
      assert w' == w;
    }
  }

  lemma CopyKeeps(job: Job, w: World, copy: Copy)
    requires HasRoom(job) && Inv(job, w) && !w.fetcher.Idle?
    ensures Inv(job, w.(out := CopyStep(w.out, w.command.stdout, copy)))
    ensures Inv(job, w.(err := CopyStep(w.err, w.command.stderr, copy)))
  {
    CopierStep(w.out, w.command.stdout, copy);
    CopierStep(w.err, w.command.stderr, copy);
    CopierHolds(job, w, CopyStep(w.out, w.command.stdout, copy), w.err);
    CopierHolds(job, w, w.out, CopyStep(w.err, w.command.stderr, copy));
  }

  // ----- whole runs -----

  lemma FiresPumped(decode: Decoder, l: Loop, w: World)
    requires Pumped(decode, l, w)
    ensures Pumped(decode, l, w.(ctx := true))
  {
  }

  lemma FiresWorks(frames: seq<CommandWriter.Frame>, w: World)
    requires Places(w) && Logged(w) && Tallied(frames, w) && Delivering(w)
    ensures (var w' := w.(ctx := true);
             Places(w') && Logged(w') && Tallied(frames, w') && Delivering(w'))
  {
  }

  lemma FiresKeeps(job: Job, w: World)
    requires HasRoom(job) && Inv(job, w)
    ensures Inv(job, Step(job, w, ContextFires))
  {
    FiresPumped(job.decode, LoopOf(job, w), w);
    FiresWorks(Frames(job, w.command.valid), w);
    assert LoopOf(job, w.(ctx := true)) == LoopOf(job, w);
  }

  lemma StepKeeps(job: Job, w: World, action: Action)
    requires HasRoom(job) && Inv(job, w)
    ensures Inv(job, Step(job, w, action))
  {
    match action
    case Opened(ok, valid) => OpenedKeeps(job, w, ok, valid);
    case Caller => CallerKeeps(job, w);
    case ContextFires => FiresKeeps(job, w);
    case Select(prefer) => SelectKeeps(job, w, prefer);
    case Answer(outcome) => AnswerKeeps(job, w, outcome);
    case Pump => PumpKeeps(job, w);
    case Stdin => StdinKeeps(job, w);
    case CopyOut(copy) =>
      if !w.fetcher.Idle? {
        CopyKeeps(job, w, copy);
      }
    case CopyErr(copy) =>
      if !w.fetcher.Idle? {
        CopyKeeps(job, w, copy);
      }
  }

  lemma {:induction false} RunKeeps(job: Job, w: World, actions: seq<Action>)
    requires HasRoom(job) && Inv(job, w)
    ensures Inv(job, Run(job, w, actions))
    decreases |actions|
  {
    if |actions| > 0 {
      StepKeeps(job, w, actions[0]);
      RunKeeps(job, Step(job, w, actions[0]), actions[1..]);
    }
  }

  lemma Reached(job: Job, actions: seq<Action>) returns (w: World)
    requires HasRoom(job)
    ensures w == Run(job, START, actions) && Inv(job, w)
    ensures LoopInv(job.decode, LoopOf(job, w)) && Counted(LoopOf(job, w))
  {
    StartHolds(job);
    RunKeeps(job, START, actions);
    w := Run(job, START, actions);
    LoopHolds(job, w);
  }

  /** What the pump and the caller have done to the command does not touch what the loop of Command has collected. */
  lemma SameOutput(decode: Decoder, l: Loop, w: World)
    requires Pumped(decode, l, w) && !w.fetcher.Idle? && !w.fetcher.WritingOut? && !w.fetcher.WritingErr?
    ensures (w.command.polls, w.command.stdout, w.command.stderr, w.command.exitCode, w.command.exits)
         == (l.command.polls, l.command.stdout, l.command.stderr, l.command.exitCode, l.command.exits)
  {
  }

  /** In every interleaving the requests of a finished run are: Create alone, if it failed; Create, Execute and
      Delete, if the command could not be started; and otherwise Create and Execute, then the requests of the
      goroutines, then the final Signal of a command with an identifier, and Delete last.  Among the goroutines'
      requests there is at most one other Signal, one Receive for every poll, and the Send requests of standard input
      in their order; so Delete is sent exactly once, and no Receive and no Send follows the final Signal. */
  lemma RequestProtocol(job: Job, actions: seq<Action>)
    requires HasRoom(job)
    ensures (var w := Run(job, START, actions);
             w.main.Returned? ==>
               if w.main.error == Some(CreateFailed) then w.main.exitCode == 1 && w.log == [CreateShell]
               else if w.main.error == Some(ExecuteFailed) then
                 w.main.exitCode == 1 && w.log == [CreateShell, ExecuteCommand, DeleteShell]
               else
                 && w.log == OPENING + w.mid + (if w.command.valid then [SignalCommand] else []) + [DeleteShell]
                 && Count(w.mid).sends == Frames(job, w.command.valid)
                 && Count(w.mid).receives == |w.command.polls|
                 && Count(w.mid).signals <= (if w.command.valid then 1 else 0)
                 && Count(w.mid).others == 0)
  {
    var w := Reached(job, actions);
    var frames := Frames(job, w.command.valid);
    assert frames[..|frames|] == frames;
    if w.fetcher.Gone? {
      SameOutput(job.decode, LoopOf(job, w), w);
    }
    assert OPENING + [] + [] + [DeleteShell] == [CreateShell, ExecuteCommand, DeleteShell];
  }

  /** The run has started a command and returned. */
  predicate Ended(w: World) {
    w.main.Returned? && !EarlyError(w.main.error)
  }

  /** In every interleaving, neither channel is ever closed twice, although the pump and the caller both close the
      cancel channel by a test and a later close; and a finished run has closed them both. */
  lemma ChannelsClosedOnce(job: Job, actions: seq<Action>)
    requires HasRoom(job)
    ensures (var w := Run(job, START, actions);
             && w.command.cancelCloses <= 1 && w.command.doneCloses <= 1
             && (Ended(w) ==> w.command.doneCloses == 1 && w.command.cancelCloses == if w.command.valid then 1 else 0))
  {
    var w := Reached(job, actions);
    NoCommandNoCancel(job, w);
  }

  lemma NoCommandNoCancel(job: Job, w: World)
    requires LoopInv(job.decode, LoopOf(job, w)) && Pumped(job.decode, LoopOf(job, w), w)
    ensures !w.command.valid ==> LoopOf(job, w).command.cancelCloses == 0
  {
  }

  /** What the caller's writer has accepted. */
  function Delivered(copier: Copier, pipe: Pipe): bytes
    requires copier.delivered <= |pipe.written|
  {
    pipe.written[..copier.delivered]
  }

  /** The pipes hold the output of the polls so far; standard error follows standard output within a poll. */
  lemma WrittenSoFar(job: Job, w: World)
    requires LoopInv(job.decode, LoopOf(job, w)) && Pumped(job.decode, LoopOf(job, w), w) && Places(w)
    ensures w.command.stdout.written == Content(job.decode, Streams(w.command.polls), STDOUT)
    ensures w.command.stderr.written <= Content(job.decode, Streams(w.command.polls), STDERR)
    ensures w.fetcher.Gone? ==> w.command.stderr.written == Content(job.decode, Streams(w.command.polls), STDERR)
  {
    var l := LoopOf(job, w);
    if w.fetcher.WritingOut? || w.fetcher.WritingErr? {
      StreamsPush(job.decode, l.command.polls, Response(w.fetcher.doc), STDOUT);
      StreamsPush(job.decode, l.command.polls, Response(w.fetcher.doc), STDERR);
    } else if !w.fetcher.Idle? {
      SameOutput(job.decode, l, w);
    }
  }

  /** In every interleaving, what the caller's writers have accepted is a prefix of the decoded output of the parsed
      responses, in response order and then document order; and in a finished run it is all of it, unless the writer
      of that stream has failed. */
  lemma OutputDelivered(job: Job, actions: seq<Action>)
    requires HasRoom(job)
    ensures (var w := Run(job, START, actions);
             var (out, err) := (Content(job.decode, Streams(w.command.polls), STDOUT),
                                Content(job.decode, Streams(w.command.polls), STDERR));
             && w.out.delivered <= |w.command.stdout.written| && w.err.delivered <= |w.command.stderr.written|
             && Delivered(w.out, w.command.stdout) <= out && Delivered(w.err, w.command.stderr) <= err
             && (Ended(w) && !w.out.failed ==> Delivered(w.out, w.command.stdout) == out)
             && (Ended(w) && !w.err.failed ==> Delivered(w.err, w.command.stderr) == err))
  {
    var w := Reached(job, actions);
    WrittenSoFar(job, w);
  }

  /** The result of a finished run is that of the loop of Command on the rounds which the pump met: the exit code of
      the finishing poll, and the error that goes with the reason for which the loop returned. */
  lemma RunResult(job: Job, actions: seq<Action>)
    requires HasRoom(job)
    ensures (var w := Run(job, START, actions);
             var exit := LastExit(w.command.polls);
             var error := FinalError(LoopOf(job, w));
             Ended(w) ==>
               && LoopOf(job, w).returned
               && w.main == Returned(if exit.Some? then exit.value else 0,
                                     if error.Some? then Some(CommandFailed(error.value)) else None))
  {
    var w := Reached(job, actions);
    if Ended(w) {
      SameOutput(job.decode, LoopOf(job, w), w);
    }
  }

  /** The exit code of a finished run, in terms of the last answer only: the number that a Done response spells, 16001
      after an error that mentions EOF and is not a timeout, and otherwise zero. */
  lemma RunExitCode(job: Job, actions: seq<Action>, n: nat)
    requires HasRoom(job) && Ended(Run(job, START, actions)) && n < 0x8000_0000_0000_0000
    ensures (var (exitCode, polls) := (Run(job, START, actions).main.exitCode, Run(job, START, actions).command.polls);
             if |polls| == 0 then exitCode == 0
             else match polls[|polls| - 1]
               case Failure(text, urlTimeout) =>
                 exitCode ==
                 if !urlTimeout && !Occurs(text, "OperationTimeout") && Occurs(text, "EOF") then 16001 else 0
               case Response(doc) =>
                 && (doc.Malformed? || !doc.done || doc.exitCode.None? || NotANumber(doc.exitCode.value) ==>
                      exitCode == 0)
                 && (doc.Document? && doc.done && doc.exitCode == Some(Decimal(n)) ==> exitCode == n)
                 && (doc.Document? && doc.done && doc.exitCode == Some(['-'] + Decimal(n)) ==> exitCode == -(n as int)))
  {
    RunResult(job, actions);
    var polls := Run(job, START, actions).command.polls;
    if |polls| > 0 {
      LastExitMeans(polls[|polls| - 1], n);
    }
  }

  /** The network's answers as the stdin goroutine meets them. */
  function Network(job: Job): CommandWriter.Config {
    CommandWriter.Config(true, job.envelope, job.net)
  }

  /** The input of a finished run: in whatever order its requests were interleaved with the polls, the remote command
      received a prefix of standard input and then the End frame, after which nothing was sent to it.  The prefix is
      the whole input exactly if the network answered every request that the whole input takes. */
  lemma InputOfRun(job: Job, actions: seq<Action>) returns (n: nat)
    requires HasRoom(job) && job.stdin.Some?
    requires Ended(Run(job, START, actions)) && Run(job, START, actions).command.valid
    ensures n <= |Flatten(job.stdin.value)|
    ensures (var sends := Count(Run(job, START, actions).mid).sends;
             && CommandWriterProofs.Received(sends) == Flatten(job.stdin.value)[..n]
             && |sends| > 0 && sends[|sends| - 1].eof
             && forall i :: 0 <= i < |sends| - 1 ==> !sends[i].eof)
    ensures n == |Flatten(job.stdin.value)| <==>
              forall k :: 0 <= k < CommandWriterProofs.Needed(Network(job), job.stdin.value) ==> job.net(k)
  {
    RequestProtocol(job, actions);
    n := CommandWriterProofs.InputDelivered(Network(job), job.stdin.value);
  }

  // ----- which runs can return -----

  /** The bytes that the pump's present poll still has to hand over on standard output, and on standard error. */
  function OutOwed(w: World): int {
    |w.command.stdout.written| - w.out.taken
  }

  function ErrOwed(job: Job, w: World): int {
    |w.command.stderr.written| - w.err.taken
    + if w.fetcher.WritingOut? && w.fetcher.doc.Document? then |Content(job.decode, w.fetcher.doc.streams, STDERR)|
    else 0
  }

  /** Some copier has stopped while its pipe is still owed bytes. */
  predicate Stranded(job: Job, w: World) {
    (w.out.done && OutOwed(w) > 0) || (w.err.done && ErrOwed(job, w) > 0)
  }

  lemma OnlyWritingStrands(job: Job, w: World)
    requires Delivering(w) && !Writing(w.fetcher)
    ensures !Stranded(job, w)
  {
  }

  /** A stranded run waits in the middle of a poll. */
  lemma StrandedWaits(job: Job, w: World)
    requires HasRoom(job) && Inv(job, w) && Stranded(job, w)
    ensures Writing(w.fetcher) && w.main == WaitDone && w.command.doneCloses == 0
  {
    if !Writing(w.fetcher) {
      OnlyWritingStrands(job, w);
    }
    LoopHolds(job, w);
    CallerWaits(w);
  }

  /** No step, and so neither the context nor the server, helps a stranded run. */
  lemma StrandedStays(job: Job, w: World, action: Action)
    requires HasRoom(job) && Inv(job, w) && Stranded(job, w)
    ensures Stranded(job, Step(job, w, action))
  {
    StrandedWaits(job, w);
    if action.Pump? && w.fetcher.WritingOut? && w.out.taken == |w.command.stdout.written| {
      LoopHolds(job, w);
      assert PipeWrite(w.command.stderr, Content(job.decode, w.fetcher.doc.streams, STDERR)).ending.None?;
    }
  }

  lemma {:induction false} StrandedNeverReturns(job: Job, w: World, more: seq<Action>)
    requires HasRoom(job) && Inv(job, w) && Stranded(job, w)
    ensures !Run(job, w, more).main.Returned?
    decreases |more|
  {
    if |more| == 0 {
      StrandedWaits(job, w);
    } else {
      StepKeeps(job, w, more[0]);
      StrandedStays(job, w, more[0]);
      StrandedNeverReturns(job, Step(job, w, more[0]), more[1..]);
    }
  }

  function MainRank(main: Main): nat {
    match main
    case Creating => 8
    case Executing => 7
    case WaitDone => 6
    case WaitGroup => 5
    case CloseTest => 4
    case CloseChannel => 3
    case SendSignal => 2
    case Deleting(_, _) => 1
    case Returned(_, _) => 0
  }

  function PumpRank(fetcher: Fetcher, listening: bool): nat {
    match fetcher
    case WritingOut(_, _) => 9
    case WritingErr(_, _) => 8
    case Selecting => if listening then 7 else 3
    case ContextTest(_) => 6
    case ContextClose(_) => 5
    case ContextSignal(_) => 4
    case Polling(_) => 2
    case ClosingDone => 1
    case _ => 0
  }

  function Left(copier: Copier, pipe: Pipe): int {
    |pipe.written| - copier.taken + if copier.done then 0 else 1
  }

  /** What the three copiers have left to do. */
  function Remaining(job: Job, w: World): int
    requires HasRoom(job)
  {
    |Frames(job, w.command.valid)| - w.sent + (if w.stdinDone then 0 else 1)
    + Left(w.out, w.command.stdout) + Left(w.err, w.command.stderr)
  }

  /** A step towards the return of the run, after which it is not stranded. */
  ghost predicate Nearer(job: Job, w: World, w': World)
    requires HasRoom(job)
  {
    && !Stranded(job, w')
    && (|| MainRank(w'.main) < MainRank(w.main)
        || (w'.main == w.main
            && (|| PumpRank(w'.fetcher, w'.listening) < PumpRank(w.fetcher, w.listening)
                || ((w'.fetcher, w'.listening) == (w.fetcher, w.listening) && Remaining(job, w') < Remaining(job, w)))))
  }

  /** An answer that ends the polling. */
  const FINAL_ANSWER := Failure([], false)

  lemma AnswerMoves(decode: Decoder, w: World)
    requires w.fetcher.Polling?
    ensures (var w' := AnswerStep(decode, w, FINAL_ANSWER);
             w'.fetcher.ClosingDone? && w'.main == w.main)
  {
    assert !OccursAt([], OPERATION_TIMEOUT, Index([], OPERATION_TIMEOUT));
    assert Slurp(decode, w.command, FINAL_ANSWER).1;
  }

  lemma CloseMoves(w: World)
    requires w.fetcher.ContextTest? || w.fetcher.ContextClose? || w.fetcher.ContextSignal? || w.fetcher.ClosingDone?
    requires w.fetcher.ClosingDone? || !w.listening
    ensures (var w' := CloseSteps(w);
             && !Writing(w'.fetcher) && w'.main == w.main
             && PumpRank(w'.fetcher, w'.listening) < PumpRank(w.fetcher, w.listening))
  {
  }

  /** A step into a state in which the pump does not write does not strand the run. */
  lemma NotStranded(job: Job, w: World, action: Action)
    requires HasRoom(job) && Inv(job, w) && !Writing(Step(job, w, action).fetcher)
    ensures !Stranded(job, Step(job, w, action))
  {
    StepKeeps(job, w, action);
    OnlyWritingStrands(job, Step(job, w, action));
  }

  lemma PumpRanks(job: Job, w: World) returns (action: Action)
    requires HasRoom(job) && !w.fetcher.Idle? && !w.fetcher.Gone? && !Writing(w.fetcher)
    requires w.fetcher.ContextTest? || w.fetcher.ContextClose? || w.fetcher.ContextSignal? ==> !w.listening
    ensures (var w' := Step(job, w, action);
             && !Writing(w'.fetcher) && w'.main == w.main
             && PumpRank(w'.fetcher, w'.listening) < PumpRank(w.fetcher, w.listening))
  {
    if w.fetcher.Selecting? {
      action := Select(true);
    } else if w.fetcher.Polling? {
      AnswerMoves(job.decode, w);
      action := Answer(FINAL_ANSWER);
    } else {
      CloseMoves(w);
      action := Pump;
    }
  }

  lemma ContextListens(decode: Decoder, l: Loop, w: World)
    requires Pumped(decode, l, w)
    ensures w.fetcher.ContextTest? || w.fetcher.ContextClose? || w.fetcher.ContextSignal? ==> !w.listening
  {
  }

  /** A step of a pump that is not writing. */
  lemma PumpMoves(job: Job, w: World) returns (action: Action)
    requires HasRoom(job) && Inv(job, w) && !w.fetcher.Idle? && !w.fetcher.Gone? && !Writing(w.fetcher)
    ensures Nearer(job, w, Step(job, w, action))
  {
    ContextListens(job.decode, LoopOf(job, w), w);
    action := PumpRanks(job, w);
    NotStranded(job, w, action);
  }

  const ONE_BYTE := Copy(1, None)

  /** A write whose bytes are not all taken: its copier takes one. */
  lemma TakeOne(copier: Copier, pipe: Pipe)
    requires !copier.done && copier.taken < |pipe.written|
    ensures CopyStep(copier, pipe, ONE_BYTE) == copier.(taken := copier.taken + 1, delivered := copier.delivered + 1)
  {
  }

  lemma OutMoves(job: Job, w: World) returns (action: Action)
    requires HasRoom(job) && Delivering(w) && !Stranded(job, w) && w.fetcher.WritingOut? && w.fetcher.doc.Document?
    requires w.command.stderr.ending.None?
    ensures Nearer(job, w, Step(job, w, action))
  {
    if OutOwed(w) > 0 {
      TakeOne(w.out, w.command.stdout);
      action := CopyOut(ONE_BYTE);
    } else {
      action := Pump;
    }
  }

  lemma ErrRanks(job: Job, w: World) returns (action: Action)
    requires HasRoom(job) && Delivering(w) && !Stranded(job, w) && w.fetcher.WritingErr? && w.fetcher.doc.Document?
    ensures (var w' := Step(job, w, action);
             Nearer(job, w, w') || (!Writing(w'.fetcher) && w'.main == w.main))
  {
    if ErrOwed(job, w) > 0 {
      TakeOne(w.err, w.command.stderr);
      action := CopyErr(ONE_BYTE);
    } else {
      action := Pump;
    }
  }

  lemma ErrMoves(job: Job, w: World) returns (action: Action)
    requires HasRoom(job) && Inv(job, w) && !Stranded(job, w) && w.fetcher.WritingErr?
    ensures Nearer(job, w, Step(job, w, action))
  {
    WritingHasDocument(job.decode, LoopOf(job, w), w);
    action := ErrRanks(job, w);
    if !Writing(Step(job, w, action).fetcher) {
      NotStranded(job, w, action);
    }
  }

  lemma WritingHasDocument(decode: Decoder, l: Loop, w: World)
    requires Pumped(decode, l, w) && Writing(w.fetcher)
    ensures w.fetcher.doc.Document?
    ensures w.fetcher.WritingOut? && l.command.stderr.ending.None? ==> w.command.stderr.ending.None?
  {
  }

  /** A copier of a closed pipe whose bytes are all taken stops. */
  lemma StopCopying(copier: Copier, pipe: Pipe)
    requires !copier.done && copier.taken == |pipe.written| && pipe.ending.Some?
    ensures CopyStep(copier, pipe, ONE_BYTE) == copier.(done := true)
  {
  }

  /** A step that brings a copier or the stdin goroutine nearer to its end. */
  lemma LessRemains(job: Job, w: World, w': World)
    requires HasRoom(job) && Delivering(w) && !Writing(w.fetcher) && Aside(w, w')
    requires Delivering(w') && Remaining(job, w') < Remaining(job, w)
    ensures Nearer(job, w, w')
  {
    OnlyWritingStrands(job, w');
  }

  lemma StdinRemains(job: Job, w: World)
    requires HasRoom(job) && !w.fetcher.Idle? && !w.stdinDone && w.sent <= |Frames(job, w.command.valid)|
    ensures Remaining(job, Step(job, w, Stdin)) == Remaining(job, w) - 1
  {
  }

  /** A step of a goroutine for which the caller still waits when the pump has gone. */
  lemma GroupMoves(job: Job, w: World) returns (action: Action)
    requires HasRoom(job) && Delivering(w) && w.main.WaitGroup? && w.fetcher.Gone?
    requires w.command.stdout.ending.Some? && w.command.stderr.ending.Some? && w.sent <= |Frames(job, w.command.valid)|
    requires !w.stdinDone || !w.out.done || !w.err.done
    ensures Nearer(job, w, Step(job, w, action))
  {
    if !w.stdinDone {
      action := Stdin;
      StdinAside(Frames(job, w.command.valid), w);
      StdinRemains(job, w);
    } else if !w.out.done {
      StopCopying(w.out, w.command.stdout);
      action := CopyOut(ONE_BYTE);
    } else {
      StopCopying(w.err, w.command.stderr);
      action := CopyErr(ONE_BYTE);
    }
    LessRemains(job, w, Step(job, w, action));
  }

  lemma GoneMeansClosed(job: Job, w: World)
    requires HasRoom(job) && Inv(job, w) && w.fetcher.Gone?
    ensures w.command.stdout.ending.Some? && w.command.stderr.ending.Some? && w.command.doneCloses > 0
  {
    LoopHolds(job, w);
    SameOutput(job.decode, LoopOf(job, w), w);
  }

  lemma CallerRanks(w: World)
    requires !w.main.Returned? && !w.main.Creating? && !w.main.Executing?
    requires w.main.WaitDone? ==> w.command.doneCloses > 0
    requires w.main.WaitGroup? ==> w.stdinDone && w.out.done && w.err.done
    ensures MainRank(CallerStep(w).main) < MainRank(w.main) && CallerStep(w).fetcher == w.fetcher
  {
  }

  lemma OpenedRanks(w: World)
    requires w.main.Creating? || w.main.Executing?
    ensures (var w' := OpenedStep(w, true, true);
             MainRank(w'.main) < MainRank(w.main) && (w'.fetcher == w.fetcher || w'.fetcher.Selecting?))
  {
  }

  /** Until it has returned, a run that is not stranded has a goroutine whose step brings it nearer to its return. */
  lemma SomeoneMoves(job: Job, w: World) returns (action: Action)
    requires HasRoom(job) && Inv(job, w) && !Stranded(job, w) && !w.main.Returned?
    ensures Nearer(job, w, Step(job, w, action))
  {
    if Writing(w.fetcher) {
      action := WriterMoves(job, w);
    } else if w.fetcher.Gone? {
      action := LateMoves(job, w);
    } else if !w.fetcher.Idle? {
      action := PumpMoves(job, w);
    } else {
      action := EarlyMoves(job, w);
    }
  }

  lemma WriterMoves(job: Job, w: World) returns (action: Action)
    requires HasRoom(job) && Inv(job, w) && !Stranded(job, w) && Writing(w.fetcher)
    ensures Nearer(job, w, Step(job, w, action))
  {
    LoopHolds(job, w);
    WritingHasDocument(job.decode, LoopOf(job, w), w);
    if w.fetcher.WritingOut? {
      action := OutMoves(job, w);
    } else {
      action := ErrMoves(job, w);
    }
  }

  lemma LateMoves(job: Job, w: World) returns (action: Action)
    requires HasRoom(job) && Inv(job, w) && w.fetcher.Gone? && !w.main.Returned?
    ensures Nearer(job, w, Step(job, w, action))
  {
    GoneMeansClosed(job, w);
    if w.main.WaitGroup? && (!w.stdinDone || !w.out.done || !w.err.done) {
      action := GroupMoves(job, w);
    } else {
      CallerRanks(w);
      action := Caller;
      NotStranded(job, w, action);
    }
  }

  lemma EarlyMoves(job: Job, w: World) returns (action: Action)
    requires HasRoom(job) && Inv(job, w) && w.fetcher.Idle? && !w.main.Returned?
    ensures Nearer(job, w, Step(job, w, action))
  {
    if w.main.Deleting? {
      CallerRanks(w);
      action := Caller;
    } else {
      OpenedRanks(w);
      action := Opened(true, true);
    }
    NotStranded(job, w, action);
  }

  /** A run that is not stranded can return. */
  lemma CanFinish(job: Job, w: World) returns (more: seq<Action>)
    requires HasRoom(job) && Inv(job, w) && !Stranded(job, w)
    ensures Run(job, w, more).main.Returned?
    decreases MainRank(w.main), PumpRank(w.fetcher, w.listening), Remaining(job, w)
  {
    if w.main.Returned? {
      more := [];
    } else {
      var action := SomeoneMoves(job, w);
      StepKeeps(job, w, action);
      var rest := CanFinish(job, Step(job, w, action));
      more := [action] + rest;
      assert more[1..] == rest;
    }
  }

  /** From any state that a run can reach, it can still return exactly if no copier has stopped while its pipe is owed
      bytes.  Otherwise the pump waits for ever in a pipe write, and the caller waits for the pump, whatever the
      context, the server and the other goroutines do. */
  lemma CanReturnIff(job: Job, actions: seq<Action>)
    requires HasRoom(job)
    ensures (var w := Run(job, START, actions);
             !Stranded(job, w) <==> exists more: seq<Action> :: Run(job, w, more).main.Returned?)
  {
    var w := Reached(job, actions);
    if Stranded(job, w) {
      forall more: seq<Action> ensures !Run(job, w, more).main.Returned? {
        StrandedNeverReturns(job, w, more);
      }
    } else {
      var more := CanFinish(job, w);
      assert Run(job, w, more).main.Returned?;
    }
  }

  /** A copier stops only when the caller's writer fails or when its pipe has ended, so with writers that do not fail
      no run is ever stranded. */
  lemma WorkingWritersSuffice(job: Job, actions: seq<Action>)
    requires HasRoom(job)
    ensures (var w := Run(job, START, actions);
             !w.out.failed && !w.err.failed ==> !Stranded(job, w))
  {
    var w := Reached(job, actions);
    if Writing(w.fetcher) {
      LoopHolds(job, w);
    } else {
      OnlyWritingStrands(job, w);
    }
  }

  /** A caller's writer that fails on the first of several bytes strands the run. */
  lemma FailingWriterStrands(job: Job, text: bytes)
    requires HasRoom(job) && |job.decode(text)| > 1
    ensures (var doc := Document([Stream(STDOUT, text)], false, None);
             var actions := [Opened(true, true), Opened(true, true), Select(true), Answer(Response(doc)),
                             CopyOut(Copy(1, Some(0)))];
             Stranded(job, Run(job, START, actions)))
  {
    var doc := Document([Stream(STDOUT, text)], false, None);
    var w2 := Step(job, Step(job, START, Opened(true, true)), Opened(true, true));
    var w3 := Step(job, w2, Select(true));
    var w4 := Step(job, w3, Answer(Response(doc)));
    OneStream(job.decode, text);
    assert w4.command.stdout.written == job.decode(text);
    var w5 := Step(job, w4, CopyOut(Copy(1, Some(0))));
    assert w5.out == Copier(1, 0, true, true);
    RunFive(job, START, Opened(true, true), Opened(true, true), Select(true), Answer(Response(doc)),
            CopyOut(Copy(1, Some(0))));
  }

  lemma OneStream(decode: Decoder, text: bytes)
    ensures Content(decode, [Stream(STDOUT, text)], STDOUT) == decode(text)
  {
    assert [Stream(STDOUT, text)][1..] == [];
  }

  lemma RunFirst(job: Job, w: World, a: Action, more: seq<Action>)
    requires HasRoom(job)
    ensures Run(job, w, [a] + more) == Run(job, Step(job, w, a), more)
  {
    assert ([a] + more)[1..] == more;
  }

  lemma RunFive(job: Job, w: World, a: Action, b: Action, c: Action, d: Action, e: Action)
    requires HasRoom(job)
    ensures Run(job, w, [a, b, c, d, e])
         == Step(job, Step(job, Step(job, Step(job, Step(job, w, a), b), c), d), e)
  {
    var w1 := Step(job, w, a);
    var w2 := Step(job, w1, b);
    var w3 := Step(job, w2, c);
    RunFirst(job, w, a, [b, c, d, e]);
    assert [a] + [b, c, d, e] == [a, b, c, d, e];
    RunFirst(job, w1, b, [c, d, e]);
    assert [b] + [c, d, e] == [b, c, d, e];
    RunFirst(job, w2, c, [d, e]);
    assert [c] + [d, e] == [c, d, e];
    RunFirst(job, w3, d, [e]);
    assert [d] + [e] == [d, e];
    RunFirst(job, Step(job, w3, d), e, []);
    assert [e] + [] == [e];
  }
}
