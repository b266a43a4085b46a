/** What each operation of a session decides, in terms of what its environment did: when a bootstrap succeeds and what
    it costs, when a call of post returns a response and when it spoils the session, and when the credentials go. */
module KerberosSessionOutcomes {

  import opened Wrappers
  import opened Bytes
  import opened BoundedReader
  import opened KerberosSession
  import opened KerberosSessionProofs

  // ----- one attempt -----

  /** The round trips of an attempt that a budget of `left` lets through. */
  function Let(attempt: Attempt, left: nat): seq<seq<Conn>> {
    if |attempt.trips| <= left then attempt.trips else attempt.trips[..left]
  }

  /** There is a reply, and its body is read to its end within the limit. */
  predicate ReplyRead(reply: Option<Response>, limit: nat) {
    && reply.Some?
    && (reply.value.body.Some? ==>
          Drain(reply.value.body.value).1 == Eof && |Drain(reply.value.body.value).0| <= limit)
  }

  /** Some two of the connections differ. */
  ghost predicate Differ(conns: seq<Conn>) {
    exists i, j :: 0 <= i < j < |conns| && conns[i] != conns[j]
  }

  /** An attempt after which the loop starts over: it was answered, on more than one connection. */
  ghost predicate Restarts(attempt: Attempt, left: nat) {
    attempt.requestOk && ReplyRead(attempt.reply, 4096) && Differ(FlattenConns(Let(attempt, left)))
  }

  /** An attempt that completed mutual authentication: it was answered with status 200, on the connection `c` only, and
      its negotiator published a context. */
  ghost predicate Authenticates(attempt: Attempt, left: nat, c: Conn) {
    var conns := FlattenConns(Let(attempt, left));
    && attempt.requestOk && ReplyRead(attempt.reply, 4096)
    && |conns| > 0 && AllOn(conns, c)
    && attempt.reply.value.status == 200
    && attempt.context
  }

  lemma DifferIff(conns: seq<Conn>)
    ensures (var end := Track(NO_CONNECTION, conns);
             && (end.changed <==> Differ(conns))
             && (forall c: Conn :: !end.changed && end.current == Some(c) <==> |conns| > 0 && AllOn(conns, c)))
  {
    TrackIff(NO_CONNECTION, conns);
    if |conns| > 0 && !Differ(conns) {
      UnchangedIsOneConnection(None, conns);
    }
    forall c: Conn | |conns| > 0 && AllOn(conns, c) ensures !Differ(conns) && conns[|conns| - 1] == c {
      assert forall i :: 0 <= i < |conns| ==> conns[i] in conns;
    }
  }

  /** Each verdict of the loop on an attempt, exactly. */
  lemma JudgeIff(attempt: Attempt, left: nat)
    requires attempt.requestOk
    ensures (var verdict := Judge(attempt, Track(NO_CONNECTION, FlattenConns(Let(attempt, left))));
             && (verdict.Restart? <==> Restarts(attempt, left))
             && (forall c: Conn :: verdict == Verdict.Accept(c) <==> Authenticates(attempt, left, c))
             && (verdict.GiveUp? <==> !Restarts(attempt, left) && forall c: Conn :: !Authenticates(attempt, left, c)))
  {
    var conns := FlattenConns(Let(attempt, left));
    DifferIff(conns);
    var tracked := Track(NO_CONNECTION, conns);
    ReadIff(attempt.reply, 4096);
    if ReplyRead(attempt.reply, 4096) && !tracked.changed && tracked.current.Some? {
      assert AllOn(conns, tracked.current.value);
    }
  }

  lemma ReadIff(reply: Option<Response>, limit: nat)
    ensures ReplyRead(reply, limit) <==> reply.Some? && !BodyFails(reply.value, limit)
  {
  }

  // ----- the bootstrap -----

  /** The `n`-th attempt from `round` on authenticates on `c`, and all attempts before it restart; `left` is the
      budget of the first of them. */
  ghost predicate SucceedsAt(env: nat -> Attempt, round: nat, left: nat, n: nat, c: Conn)
    decreases n
  {
    && left > 0
    && if n == 0 then Authenticates(env(round), left, c)
       else
         && Restarts(env(round), left)
         && SucceedsAt(env, round + 1, left - |Let(env(round), left)|, n - 1, c)
  }

  lemma LetIsPerformed(attempt: Attempt, left: nat)
    ensures Performed(attempt.trips, left) == Let(attempt, left) && |Let(attempt, left)| <= left
  {
  }

  /** The events of an attempt. */
  function Sent(env: nat -> Attempt, round: nat, left: nat, negotiators: nat): seq<Event> {
    TripEvents(negotiators, Let(env(round), left))
  }

  /** One turn of the bootstrap loop, in these terms. */
  lemma TurnCases(env: nat -> Attempt, round: nat, left: nat, negotiators: nat)
    requires left > 0 && env(round).requestOk
    ensures |Let(env(round), left)| <= left
    ensures (var (boot, sent) := (Establish(env, round, left, negotiators), Sent(env, round, left, negotiators));
             if Restarts(env(round), left) then
               var next := Establish(env, round + 1, left - |Let(env(round), left)|, negotiators + 1);
               boot == next.(events := sent + next.events)
             else
               && (forall c: Conn :: Authenticates(env(round), left, c) ==>
                     boot == Boot(sent + [Bound(negotiators, c)], negotiators + 1, Some((negotiators, c))))
               && ((forall c: Conn :: !Authenticates(env(round), left, c)) ==>
                     boot == Boot(sent, negotiators + 1, None)))
  {
    JudgeIff(env(round), left);
    LetIsPerformed(env(round), left);
  }

  lemma RestartedElsewhere(attempt: Attempt, left: nat, c: Conn)
    requires Restarts(attempt, left)
    ensures !Authenticates(attempt, left, c) && |Let(attempt, left)| > 0
  {
    DifferIff(FlattenConns(Let(attempt, left)));
    CostOfRestart(attempt, left);
  }

  /** Exactly when a bootstrap succeeds, with which negotiator and on which connection: some attempt completes mutual
      authentication on one connection, within the budget, and every attempt before it was answered on two different
      connections. */
  lemma {:induction false} EstablishIff(env: nat -> Attempt, round: nat, remaining: nat, negotiators: nat,
                                        n: nat, c: Conn)
    ensures Establish(env, round, remaining, negotiators).outcome == Some((negotiators + n, c))
       <==> SucceedsAt(env, round, remaining, n, c)
    decreases remaining
  {
    if remaining > 0 && env(round).requestOk {
      TurnCases(env, round, remaining, negotiators);
      if Restarts(env(round), remaining) {
        var left := remaining - |Let(env(round), remaining)|;
        RestartedElsewhere(env(round), remaining, c);
        LabelsGrow(env, round + 1, left, negotiators + 1);
        if n > 0 {
          EstablishIff(env, round + 1, left, negotiators + 1, n - 1, c);
        }
      }
    }
  }

  lemma {:induction false} LabelsGrow(env: nat -> Attempt, round: nat, remaining: nat, negotiators: nat)
    ensures (var outcome := Establish(env, round, remaining, negotiators).outcome;
             outcome.Some? ==> outcome.value.0 >= negotiators)
    decreases remaining
  {
    if remaining > 0 && env(round).requestOk {
      var trips := Performed(env(round).trips, remaining);
      if Judge(env(round), Track(NO_CONNECTION, FlattenConns(trips))).Restart? {
        ChangeNeedsTrip(trips);
        LabelsGrow(env, round + 1, remaining - |trips|, negotiators + 1);
      }
    }
  }

  /** A bootstrap fails exactly if no attempt succeeds in this way. */
  lemma EstablishFailsIff(env: nat -> Attempt, round: nat, remaining: nat, negotiators: nat)
    ensures Establish(env, round, remaining, negotiators).outcome == None
       <==> forall n: nat, c: Conn :: !SucceedsAt(env, round, remaining, n, c)
  {
    var outcome := Establish(env, round, remaining, negotiators).outcome;
    LabelsGrow(env, round, remaining, negotiators);
    if outcome.Some? {
      EstablishIff(env, round, remaining, negotiators, outcome.value.0 - negotiators, outcome.value.1);
    } else {
      forall n: nat, c: Conn ensures !SucceedsAt(env, round, remaining, n, c) {
        EstablishIff(env, round, remaining, negotiators, n, c);
      }
    }
  }

  /** The round trips that a bootstrap makes: those of an attempt that its budget lets through, and after
      a restart those of the next. */
  ghost function Cost(env: nat -> Attempt, round: nat, left: nat): nat
    decreases left
  {
    if left == 0 || !env(round).requestOk then 0
    else
      var made := |Let(env(round), left)|;
      if Restarts(env(round), left) then
        CostOfRestart(env(round), left);
        made + Cost(env, round + 1, left - made)
      else made
  }

  lemma CostOfRestart(attempt: Attempt, left: nat)
    requires Restarts(attempt, left)
    ensures 0 < |Let(attempt, left)| <= left
  {
    DifferIff(FlattenConns(Let(attempt, left)));
    ChangeNeedsTrip(Let(attempt, left));
  }

  /** Every one of these round trips is in the trace, and no other request. */
  lemma {:induction false} EstablishCosts(env: nat -> Attempt, round: nat, remaining: nat, negotiators: nat)
    ensures HttpCount(Establish(env, round, remaining, negotiators).events) == Cost(env, round, remaining)
    decreases remaining
  {
    if remaining > 0 && env(round).requestOk {
      var sent := Sent(env, round, remaining, negotiators);
      TurnCases(env, round, remaining, negotiators);
      HttpCountTrips(negotiators, Let(env(round), remaining));
      if Restarts(env(round), remaining) {
        var left := remaining - |Let(env(round), remaining)|;
        CostOfRestart(env(round), remaining);
        EstablishCosts(env, round + 1, left, negotiators + 1);
        HttpCountConcat(sent, Establish(env, round + 1, left, negotiators + 1).events);
      } else {
        forall c: Conn ensures HttpCount(sent + [Bound(negotiators, c)]) == HttpCount(sent) {
          BindingIsFree(sent, negotiators, c);
        }
      }
    }
  }

  /** The connection that a call of `post` finds or makes: that of an established session, or that of a bootstrap which
      succeeds within five round trips. */
  ghost predicate BoundTo(s: State, env: PostEnv, c: Conn) {
    if s.phase == Established then s.connection == Some(c)
    else exists n: nat :: SucceedsAt(env.attempts, 0, 5, n, c)
  }

  lemma EstablishedIff(s: State, env: PostEnv, c: Conn)
    requires Valid(s) && s.phase != Closed
    ensures EstablishStep(s, env.attempts).connection == Some(c) <==> BoundTo(s, env, c)
  {
    if s.phase != Established {
      var outcome := Establish(env.attempts, 0, MAX_BOOTSTRAP_EXCHANGES, s.negotiators).outcome;
      LabelsGrow(env.attempts, 0, MAX_BOOTSTRAP_EXCHANGES, s.negotiators);
      if outcome.Some? {
        EstablishIff(env.attempts, 0, MAX_BOOTSTRAP_EXCHANGES, s.negotiators,
                     outcome.value.0 - s.negotiators, outcome.value.1);
      }
      forall n: nat | SucceedsAt(env.attempts, 0, 5, n, c) ensures outcome == Some((s.negotiators + n, c)) {
        EstablishIff(env.attempts, 0, MAX_BOOTSTRAP_EXCHANGES, s.negotiators, n, c);
      }
    }
  }

  // ----- the SOAP exchange -----

  /** `data` is the whole body of the reply, and fits the limit. */
  predicate WholeBody(body: Option<Reader>, limit: int, data: bytes) {
    if body.None? then data == [] else Drain(body.value) == (data, Eof) && |data| <= limit
  }

  /** The exchange obtained connections, and they are all the bound one. */
  ghost predicate OnlyOn(conns: seq<Conn>, c: Conn) {
    |conns| > 0 && AllOn(conns, c)
  }

  /** What makes an exchange on a session that is bound to `c` return `data`. */
  ghost predicate Returns(env: PostEnv, c: Conn, maxBodySize: int, data: bytes) {
    && maxBodySize > 0 && env.requestOk
    && env.reply.Some? && env.reply.value.status == 200 && env.reply.value.soap
    && OnlyOn(env.conns, c)
    && WholeBody(env.reply.value.body, maxBodySize, data)
  }

  lemma OnlyOnIff(c: Conn, conns: seq<Conn>)
    ensures (var end := Track(Tracking(Some(c), None, false), conns);
             end.current.Some? && !end.changed <==> OnlyOn(conns, c))
  {
    var start := Tracking(Some(c), None, false);
    TrackIff(start, conns);
    if OnlyOn(conns, c) {
      assert forall i :: 0 <= i < |conns| ==> conns[i] in conns;
    } else if |conns| > 0 && !Track(start, conns).changed {
      UnchangedIsOneConnection(Some(c), conns);
    }
  }

  /** Exactly when the exchange returns a response, and which. */
  lemma PlaintextIff(s: State, call: nat, env: PostEnv, message: bytes, maxBodySize: int, data: bytes)
    requires Valid(s) && s.phase == Established
    ensures PostPlaintext(s, call, env, message, maxBodySize).1 == Ok(data)
       <==> Returns(env, s.connection.value, maxBodySize, data)
  {
    OnlyOnIff(s.connection.value, env.conns);
  }

  /** Exactly when the exchange takes place, what it leaves in the trace, and when it spoils the session: if there is no
      reply, or it did not run on the bound connection only. */
  lemma PlaintextState(s: State, call: nat, env: PostEnv, message: bytes, maxBodySize: int)
    requires Valid(s) && s.phase == Established
    ensures (var after := PostPlaintext(s, call, env, message, maxBodySize).0;
             var sent := s.(trace := s.trace + [Soap(s.adapter.value, call, message, env.conns)]);
             if maxBodySize <= 0 || !env.requestOk then after == s
             else if env.reply.None? || !OnlyOn(env.conns, s.connection.value) then
               after == sent.(phase := Invalid, adapter := None, connection := None)
             else after == sent)
  {
    OnlyOnIff(s.connection.value, env.conns);
  }

  /** Which error the exchange reports. */
  lemma PlaintextErrors(s: State, call: nat, env: PostEnv, message: bytes, maxBodySize: int)
    requires Valid(s) && s.phase == Established
    ensures (var result := PostPlaintext(s, call, env, message, maxBodySize).1;
             var made := maxBodySize > 0 && env.requestOk;
             var kept := made && env.reply.Some? && OnlyOn(env.conns, s.connection.value);
             && (result == Err("config") <==> !made)
             && (result == Err("http") <==> made && env.reply.None?)
             && (result == Err("connection changed") <==> made && env.reply.Some? && !kept)
             && (result == Err("body") <==> kept && !ReplyRead(env.reply, maxBodySize))
             && (result == Err("status") <==>
                   kept && ReplyRead(env.reply, maxBodySize) && env.reply.value.status != 200)
             && (result == Err("content type") <==>
                   kept && ReplyRead(env.reply, maxBodySize) && env.reply.value.status == 200 && !env.reply.value.soap))
  {
    OnlyOnIff(s.connection.value, env.conns);
  }

  // ----- one call of post -----

  /** Exactly when a call of `post` returns a response, and which: the session is open and does not require
      encryption, it is bound to some connection, and the exchange on that connection returns the response. */
  lemma PostIff(config: Config, s: State, env: PostEnv, message: bytes, maxBodySize: int, data: bytes)
    requires Valid(s)
    ensures PostStep(config, s, env, message, maxBodySize).1 == Ok(data)
       <==> && s.phase != Closed && !config.requireEncryption
            && exists c: Conn :: BoundTo(s, env, c) && Returns(env, c, maxBodySize, data)
  {
    if s.phase != Closed {
      var counted := s.(calls := s.calls + 1);
      var established := EstablishStep(counted, env.attempts);
      assert forall c: Conn :: BoundTo(counted, env, c) <==> BoundTo(s, env, c);
      forall c: Conn ensures established.connection == Some(c) <==> BoundTo(s, env, c) {
        EstablishedIff(counted, env, c);
      }
      if established.phase == Established {
        assert BoundTo(s, env, established.connection.value);
        PlaintextIff(established, s.calls, env, message, maxBodySize, data);
      }
    }
  }

  /** The state that a call of `post` leaves: a closed session stays closed; a session that could not be bound is
      invalid, and so is one whose exchange had no reply or left the bound connection; otherwise it is
      established, on the same connection. */
  lemma PostPhase(config: Config, s: State, env: PostEnv, message: bytes, maxBodySize: int)
    requires Valid(s)
    ensures (var after := PostStep(config, s, env, message, maxBodySize).0;
             && (after.phase == Closed <==> s.phase == Closed)
             && (forall c: Conn :: after.phase == Established && after.connection == Some(c) <==>
                   && s.phase != Closed && BoundTo(s, env, c)
                   && (config.requireEncryption || maxBodySize <= 0 || !env.requestOk
                       || (env.reply.Some? && OnlyOn(env.conns, c)))))
  {
    if s.phase != Closed {
      var counted := s.(calls := s.calls + 1);
      var established := EstablishStep(counted, env.attempts);
      forall c: Conn ensures established.connection == Some(c) <==> BoundTo(s, env, c) {
        EstablishedIff(counted, env, c);
        assert BoundTo(counted, env, c) <==> BoundTo(s, env, c);
      }
      if established.phase == Established {
        PlaintextState(established, s.calls, env, message, maxBodySize);
      }
    }
  }

  /** What a call of `post` adds to the trace: the events of its bootstrap, if it needs one, and the SOAP exchange
      exactly if the session is bound, does not require encryption, and the request can be built. */
  lemma PostTrace(config: Config, s: State, env: PostEnv, message: bytes, maxBodySize: int)
    requires Valid(s)
    ensures (var after := PostStep(config, s, env, message, maxBodySize).0;
             if s.phase == Closed then after.trace == s.trace
             else
               var established := EstablishStep(s, env.attempts);
               var made := maxBodySize > 0 && env.requestOk;
               var sends := established.phase == Established && !config.requireEncryption && made;
               && established.trace
                  == s.trace + (if s.phase == Established then []
                                else Establish(env.attempts, 0, 5, s.negotiators).events)
               && after.trace
                  == established.trace
                     + (if sends then [Soap(established.adapter.value, s.calls, message, env.conns)] else []))
  {
    assert s.trace + [] == s.trace;
    if s.phase != Closed {
      var established := EstablishStep(s.(calls := s.calls + 1), env.attempts);
      assert established == EstablishStep(s, env.attempts).(calls := s.calls + 1);
      assert established.trace + [] == established.trace;
      if established.phase == Established {
        PlaintextState(established, s.calls, env, message, maxBodySize);
      }
    }
  }

  // ----- whole runs -----

  /** The `j`-th operation is the call of `post` whose bootstrap made the session's present
      context, at its attempt `n`. */
  ghost predicate MadeBy(config: Config, ops: seq<Op>, j: nat, n: nat, k: nat, c: Conn)
    requires j < |ops|
  {
    && ops[j].PostOp?
    && SucceedsAt(ops[j].env.attempts, 0, 5, n, c)
    && k == Run(config, START, ops[..j]).negotiators + n
  }

  lemma LastOp(config: Config, ops: seq<Op>)
    requires |ops| > 0
    ensures Run(config, START, ops) == Step(config, Run(config, START, ops[..|ops| - 1]), ops[|ops| - 1]).0
  {
    RunSplit(config, START, ops, |ops| - 1);
    assert ops[|ops| - 1 + 1..] == [];
  }

  /** A bootstrap in `post` makes the context. */
  lemma EstablishMakes(s: State, env: nat -> Attempt)
    returns (n: nat)
    requires Valid(s) && s.phase != Closed && s.phase != Established
    ensures (var s' := EstablishStep(s, env);
             s'.phase == Established ==>
               s'.adapter == Some(s.negotiators + n) && SucceedsAt(env, 0, 5, n, s'.connection.value))
  {
    var outcome := Establish(env, 0, MAX_BOOTSTRAP_EXCHANGES, s.negotiators).outcome;
    n := 0;
    LabelsGrow(env, 0, MAX_BOOTSTRAP_EXCHANGES, s.negotiators);
    if outcome.Some? {
      n := outcome.value.0 - s.negotiators;
      EstablishIff(env, 0, MAX_BOOTSTRAP_EXCHANGES, s.negotiators, n, outcome.value.1);
    }
  }

  /** What `post` leaves established is what its bootstrap established. */
  lemma PostLeaves(config: Config, s: State, env: PostEnv, message: bytes, maxBodySize: int)
    requires Valid(s) && s.phase != Closed
    ensures (var (after, result) := PostStep(config, s, env, message, maxBodySize);
             var established := EstablishStep(s.(calls := s.calls + 1), env.attempts);
             && (after.phase == Established || result.Ok? ==> established.phase == Established)
             && (after.phase == Established ==>
                   after.adapter == established.adapter && after.connection == established.connection))
  {
    var established := EstablishStep(s.(calls := s.calls + 1), env.attempts);
    if established.phase == Established {
      PlaintextState(established, s.calls, env, message, maxBodySize);
    }
  }

  /** In every run, the context of an established session was made by a call of `post` in that run, at an attempt that
      completed mutual authentication on the session's connection. */
  lemma {:induction false} RunAuthenticates(config: Config, ops: seq<Op>) returns (j: nat, n: nat)
    requires Run(config, START, ops).phase == Established
    ensures j < |ops|
    ensures (var s := Run(config, START, ops);
             MadeBy(config, ops, j, n, s.adapter.value, s.connection.value))
    decreases |ops|, 1
  {
    var last := |ops| - 1;
    var before := Run(config, START, ops[..last]);
    var op := ops[last];
    LastOp(config, ops);
    assert op.PostOp? && before.phase != Closed;
    PostLeaves(config, before, op.env, op.message, op.maxBodySize);
    j, n := PostAuthenticates(config, ops);
  }

  /** The same for the context that the last call found or made, even if it did not keep it. */
  lemma {:induction false} PostAuthenticates(config: Config, ops: seq<Op>) returns (j: nat, n: nat)
    requires |ops| > 0 && ops[|ops| - 1].PostOp?
    requires (var before := Run(config, START, ops[..|ops| - 1]);
              && before.phase != Closed
              && EstablishStep(before.(calls := before.calls + 1), ops[|ops| - 1].env.attempts).phase == Established)
    ensures j < |ops|
    ensures (var before := Run(config, START, ops[..|ops| - 1]);
             var s := EstablishStep(before.(calls := before.calls + 1), ops[|ops| - 1].env.attempts);
             MadeBy(config, ops, j, n, s.adapter.value, s.connection.value))
    decreases |ops|, 0
  {
    var last := |ops| - 1;
    var before := Run(config, START, ops[..last]);
    if before.phase == Established {
      j, n := RunAuthenticates(config, ops[..last]);
      assert ops[..last][..j] == ops[..j] && ops[..last][j] == ops[j];
    } else {
      j := last;
      n := EstablishMakes(before.(calls := before.calls + 1), ops[last].env.attempts);
    }
  }

  lemma MadeByPrefix(config: Config, ops: seq<Op>, m: nat, j: nat, n: nat, k: nat, c: Conn)
    requires m <= |ops| && j < m && MadeBy(config, ops[..m], j, n, k, c)
    ensures MadeBy(config, ops, j, n, k, c)
  {
    assert ops[..m][..j] == ops[..j] && ops[..m][j] == ops[j];
  }

  /** The context that the `i`-th operation, a call of `post`, found or made. */
  lemma CallAuthenticates(config: Config, ops: seq<Op>, i: nat, k: nat, c: Conn) returns (j: nat, n: nat)
    requires i < |ops| && ops[i].PostOp? && Run(config, START, ops[..i]).phase != Closed
    requires var before := Run(config, START, ops[..i]);
             Holds(EstablishStep(before.(calls := before.calls + 1), ops[i].env.attempts), k, c)
    ensures j <= i && MadeBy(config, ops, j, n, k, c)
  {
    assert ops[..i + 1][..i] == ops[..i] && ops[..i + 1][i] == ops[i];
    j, n := PostAuthenticates(config, ops[..i + 1]);
    MadeByPrefix(config, ops, i + 1, j, n, k, c);
  }

  /** Binding over whole runs: every response returned to a caller was exchanged only on the connection on which the
      security context that sent it was established; every bootstrap exchange of that context, in the whole run, was on
      that same connection, and there is one; and that context was made by this or an earlier call of `post`, at an
      attempt that was answered with status 200 and completed mutual authentication. */
  lemma RunBinding(config: Config, ops: seq<Op>, i: nat)
    returns (k: nat, c: Conn, j: nat, n: nat)
    requires i < |ops| && ops[i].PostOp?
    requires Step(config, Run(config, START, ops[..i]), ops[i]).1.value.Ok?
    ensures var trace := Run(config, START, ops).trace;
            && Soap(k, |Posted(ops[..i])|, ops[i].message, ops[i].env.conns) in trace
            && |ops[i].env.conns| > 0 && AllOn(ops[i].env.conns, c)
            && Bound(k, c) in trace
            && BootstrappedOn(trace, k, c)
            && (exists conns :: Bootstrap(k, conns) in trace && c in conns)
    ensures j <= i && MadeBy(config, ops, j, n, k, c)
  {
    k, c := RunBound(config, ops, i);
    j, n := CallAuthenticates(config, ops, i, k, c);
  }

  // ----- closing -----

  lemma {:induction false} ClosedAfter(config: Config, s: State, ops: seq<Op>)
    requires Inv(config, s)
    ensures Run(config, s, ops).phase == Closed <==> s.phase == Closed || exists i :: 0 <= i < |ops| && ops[i].CloseOp?
    decreases |ops|
  {
    if |ops| > 0 {
      var next := Step(config, s, ops[0]).0;
      StepKeeps(config, s, ops[0]);
      ClosedAfter(config, next, ops[1..]);
      if ops[0].PostOp? {
        PostPhase(config, s, ops[0].env, ops[0].message, ops[0].maxBodySize);
      }
      assert forall i :: 1 <= i < |ops| ==> ops[i] == ops[1..][i - 1];
    }
  }

  /** The credentials are destroyed exactly in the runs that close the session, if there are any credentials. */
  lemma CredentialsDestroyedIff(config: Config, ops: seq<Op>)
    ensures Destroyed in Run(config, START, ops).trace
       <==> config.hasClient && exists i :: 0 <= i < |ops| && ops[i].CloseOp?
  {
    StartInv(config);
    assert DestroyedIfClosed(config, START);
    DestroyedWhenClosed(config, START, ops);
    ClosedAfter(config, START, ops);
  }

  ghost predicate DestroyedIfClosed(config: Config, s: State) {
    Destroyed in s.trace <==> config.hasClient && s.phase == Closed
  }

  lemma PostDestroysNothing(config: Config, s: State, env: PostEnv, message: bytes, maxBodySize: int)
    requires Valid(s)
    ensures Destroyed in PostStep(config, s, env, message, maxBodySize).0.trace <==> Destroyed in s.trace
  {
    PostTrace(config, s, env, message, maxBodySize);
    EstablishNeverDestroys(env.attempts, 0, MAX_BOOTSTRAP_EXCHANGES, s.negotiators);
  }

  lemma {:induction false} DestroyedWhenClosed(config: Config, s: State, ops: seq<Op>)
    requires Inv(config, s) && DestroyedIfClosed(config, s)
    ensures DestroyedIfClosed(config, Run(config, s, ops))
    decreases |ops|
  {
    if |ops| > 0 {
      var next := Step(config, s, ops[0]).0;
      StepKeeps(config, s, ops[0]);
      if ops[0].PostOp? {
        PostDestroysNothing(config, s, ops[0].env, ops[0].message, ops[0].maxBodySize);
        PostPhase(config, s, ops[0].env, ops[0].message, ops[0].maxBodySize);
      }
      DestroyedWhenClosed(config, next, ops[1..]);
    }
  }

  lemma {:induction false} EstablishNeverDestroys(env: nat -> Attempt, round: nat, remaining: nat, negotiators: nat)
    ensures Destroyed !in Establish(env, round, remaining, negotiators).events
    decreases remaining
  {
    if remaining > 0 && env(round).requestOk {
      var trips := Performed(env(round).trips, remaining);
      if Judge(env(round), Track(NO_CONNECTION, FlattenConns(trips))).Restart? {
        ChangeNeedsTrip(trips);
        EstablishNeverDestroys(env, round + 1, remaining - |trips|, negotiators + 1);
      }
    }
  }
}
