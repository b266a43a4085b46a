/** kerberos_session.go: one serialized Kerberos session over a client whose connections may change underneath it. The
    mutex makes every operation atomic, so a run is a sequence of operations; the negotiator, the transport and the
    server are an environment that chooses what each of them sees. */
module KerberosSession {

  import opened Wrappers
  import opened Bytes
  import opened BoundedReader

  const MAX_BOOTSTRAP_EXCHANGES: nat := 5
  const MAX_BOOTSTRAP_BODY: nat := 4096

  /** The identity of a net.Conn. */
  type Conn = nat

  datatype Phase = CredentialsReady | Negotiating | Established | Invalid | Closed

  // ----- the environment -----

  /** `soap` says whether the Content-Type header names SOAP. */
  datatype Response = Response(status: int, soap: bool, body: Option<Reader>)

  /** One turn of the bootstrap loop: whether the request can be built, the connections that each round trip of the
      negotiator obtains, the negotiator's response (None for an error), and whether it published a context. */
  datatype Attempt = Attempt(requestOk: bool, trips: seq<seq<Conn>>, reply: Option<Response>, context: bool)

  /** What one call of `post` meets: its bootstrap attempts, if any, and its SOAP exchange. */
  datatype PostEnv = PostEnv(attempts: nat -> Attempt, requestOk: bool, conns: seq<Conn>, reply: Option<Response>)

  // ----- connection tracking -----

  datatype Tracking = Tracking(expected: Option<Conn>, current: Option<Conn>, changed: bool)

  function GotConn(t: Tracking, conn: Conn): Tracking {
    Tracking(t.expected, Some(conn),
             t.changed || (t.current.Some? && t.current.value != conn)
             || (t.expected.Some? && t.expected.value != conn))
  }

  function Track(t: Tracking, conns: seq<Conn>): Tracking
    decreases |conns|
  {
    if |conns| == 0 then t else Track(GotConn(t, conns[0]), conns[1..])
  }

  class ConnectionTracker {
    const expected: Option<Conn>
    var current: Option<Conn>
    var changed: bool

    constructor (expected: Option<Conn>)
      ensures View() == Tracking(expected, None, false)
    {
      this.expected, current, changed := expected, None, false;
    }

    function View(): Tracking
      reads this
    {
      Tracking(expected, current, changed)
    }

    method Got(conn: Conn)
      modifies this
      ensures View() == GotConn(old(View()), conn)
    {
      if (current.Some? && current.value != conn) || (expected.Some? && expected.value != conn) {
        changed := true;
      }
      current := Some(conn);
    }

    method GotAll(conns: seq<Conn>)
      modifies this
      ensures View() == Track(old(View()), conns)
    {
      for i := 0 to |conns|
        invariant Track(old(View()), conns) == Track(View(), conns[i..])
      {
        assert conns[i..][1..] == conns[i + 1..];
        Got(conns[i]);
      }
    }
  }

  // ----- bootstrap -----

  datatype Event =
    | Bootstrap(negotiator: nat, conns: seq<Conn>)
    | Bound(negotiator: nat, conn: Conn)
    | Soap(negotiator: nat, call: nat, body: bytes, conns: seq<Conn>)
    | Destroyed

  function FlattenConns(trips: seq<seq<Conn>>): seq<Conn> {
    if |trips| == 0 then [] else trips[0] + FlattenConns(trips[1..])
  }

  /** The base round trips of one negotiator: HTTP requests with an empty body. */
  function TripEvents(negotiator: nat, trips: seq<seq<Conn>>): seq<Event> {
    seq(|trips|, i requires 0 <= i < |trips| => Bootstrap(negotiator, trips[i]))
  }

  /** The round trips that reach the base transport before the budget is used up. */
  function Performed(trips: seq<seq<Conn>>, remaining: nat): seq<seq<Conn>> {
    trips[..Min(|trips|, remaining)]
  }

  predicate BodyFails(response: Response, limit: nat) {
    BoundedBody(response.body, limit).1.Some?
  }

  const NO_CONNECTION := Tracking(None, None, false)

  /** The events of a bootstrap, the number of negotiators created so far, and the context
      and connection it established. */
  datatype Boot = Boot(events: seq<Event>, negotiators: nat, outcome: Option<(nat, Conn)>)

  /** A detected change needs two connection events, hence at least one round trip. */
  lemma {:induction false} ChangeNeedsTrip(trips: seq<seq<Conn>>)
    ensures Track(NO_CONNECTION, FlattenConns(trips)).changed ==> |trips| > 0 && |FlattenConns(trips)| >= 2
  {
    var conns := FlattenConns(trips);
    if |conns| == 1 {
      assert Track(NO_CONNECTION, conns) == GotConn(NO_CONNECTION, conns[0]);
    }
  }

  /** What the loop does with the outcome of one negotiator. */
  datatype Verdict = GiveUp | Restart | Accept(conn: Conn)

  function Judge(attempt: Attempt, tracked: Tracking): Verdict {
    if attempt.reply.None? || BodyFails(attempt.reply.value, MAX_BOOTSTRAP_BODY) then GiveUp
    else if tracked.changed then Restart
    else if attempt.reply.value.status != 200 || !attempt.context || tracked.current.None? then GiveUp
    else Accept(tracked.current.value)
  }

  /** The bootstrap loop from its `round`-th turn on, with a budget of `remaining` round trips. */
  function Establish(env: nat -> Attempt, round: nat, remaining: nat, negotiators: nat): Boot
    decreases remaining
  {
    if remaining == 0 || !env(round).requestOk then Boot([], negotiators, None)
    else
      var trips := Performed(env(round).trips, remaining);
      var sent := TripEvents(negotiators, trips);
      match Judge(env(round), Track(NO_CONNECTION, FlattenConns(trips)))
      case GiveUp => Boot(sent, negotiators + 1, None)
      case Restart =>
        ChangeNeedsTrip(trips);
        var next := Establish(env, round + 1, remaining - |trips|, negotiators + 1);
        next.(events := sent + next.events)
      case Accept(conn) =>
        Boot(sent + [Bound(negotiators, conn)], negotiators + 1, Some((negotiators, conn)))
  }

  /** A bootstrap whose events are appended to what happened before. */
  function After(trace: seq<Event>, boot: Boot): Boot {
    boot.(events := trace + boot.events)
  }

  /** One turn of the loop, on a trace. */
  lemma EstablishTurn(env: nat -> Attempt, round: nat, remaining: nat, negotiators: nat, trace: seq<Event>)
    ensures After(trace, Establish(env, round, remaining, negotiators))
         == (if remaining == 0 || !env(round).requestOk then Boot(trace, negotiators, None)
             else
               var trips := Performed(env(round).trips, remaining);
               var sent := trace + TripEvents(negotiators, trips);
               match Judge(env(round), Track(NO_CONNECTION, FlattenConns(trips)))
               case GiveUp => Boot(sent, negotiators + 1, None)
               case Restart => After(sent, Establish(env, round + 1, remaining - |trips|, negotiators + 1))
               case Accept(conn) => Boot(sent + [Bound(negotiators, conn)], negotiators + 1, Some((negotiators, conn))))
  {
    var boot := Establish(env, round, remaining, negotiators);
    if remaining == 0 || !env(round).requestOk {
      assert trace + [] == trace;
    } else {
      var trips := Performed(env(round).trips, remaining);
      var sent := TripEvents(negotiators, trips);
      match Judge(env(round), Track(NO_CONNECTION, FlattenConns(trips)))
      case GiveUp =>
      case Restart =>
        var next := Establish(env, round + 1, remaining - |trips|, negotiators + 1);
        assert trace + (sent + next.events) == (trace + sent) + next.events;
      case Accept(conn) =>
        assert trace + (sent + [Bound(negotiators, conn)]) == trace + sent + [Bound(negotiators, conn)];
    }
  }

  class CountingRoundTripper {
    var remaining: nat

    constructor (budget: nat)
      ensures remaining == budget
    {
      remaining := budget;
    }

    /** One RoundTrip: without budget it fails before it reaches the base transport. */
    method RoundTrip(conns: seq<Conn>, tracker: ConnectionTracker) returns (performed: bool)
      modifies this, tracker
      ensures performed == (old(remaining) > 0)
      ensures remaining == if performed then old(remaining) - 1 else old(remaining)
      ensures tracker.View() == if performed then Track(old(tracker.View()), conns) else old(tracker.View())
    {
      if remaining == 0 {
        return false;
      }
      remaining := remaining - 1;
      tracker.GotAll(conns);
      return true;
    }
  }

  lemma {:induction false} FlattenConnsStep(trips: seq<seq<Conn>>, n: nat)
    requires n < |trips|
    ensures FlattenConns(trips[..n + 1]) == FlattenConns(trips[..n]) + trips[n]
  {
    if n == 0 {
      assert trips[..1] == [trips[0]] && trips[..1][1..] == [] && trips[..0] == [];
    } else {
      assert trips[..n + 1][1..] == trips[1..][..n] && trips[..n][1..] == trips[1..][..n - 1];
      assert trips[1..][n - 1] == trips[n];
      FlattenConnsStep(trips[1..], n - 1);
      assert trips[0] + (FlattenConns(trips[1..][..n - 1]) + trips[n])
          == trips[0] + FlattenConns(trips[1..][..n - 1]) + trips[n];
    }
  }

  lemma {:induction false} TrackConcat(t: Tracking, a: seq<Conn>, b: seq<Conn>)
    ensures Track(t, a + b) == Track(Track(t, a), b)
    decreases |a|
  {
    if |a| == 0 {
      assert a + b == b;
    } else {
      assert (a + b)[1..] == a[1..] + b;
      TrackConcat(GotConn(t, a[0]), a[1..], b);
    }
  }

  /** The unseen negotiator's Do: it attempts the round trips that the environment chooses. */
  method Negotiate(negotiator: nat, trips: seq<seq<Conn>>, counting: CountingRoundTripper, tracker: ConnectionTracker)
    returns (ghost sent: seq<Event>)
    modifies counting, tracker
    ensures sent == TripEvents(negotiator, Performed(trips, old(counting.remaining)))
    ensures counting.remaining == old(counting.remaining) - |sent|
    ensures tracker.View() == Track(old(tracker.View()), FlattenConns(Performed(trips, old(counting.remaining))))
  {
    sent := [];
    ghost var budget := counting.remaining;
    ghost var start := tracker.View();
    for i := 0 to |trips|
      invariant counting.remaining == budget - Min(i, budget)
      invariant sent == TripEvents(negotiator, trips[..Min(i, budget)])
      invariant tracker.View() == Track(start, FlattenConns(trips[..Min(i, budget)]))
    {
      var performed := counting.RoundTrip(trips[i], tracker);
      if performed {
        FlattenConnsStep(trips, i);
        TrackConcat(start, FlattenConns(trips[..i]), trips[i]);
        assert TripEvents(negotiator, trips[..i + 1]) == TripEvents(negotiator, trips[..i])
            + [Bootstrap(negotiator, trips[i])];
        sent := sent + [Bootstrap(negotiator, trips[i])];
      }
    }
  }

  // ----- the session as a state machine -----

  /** requireEncryption and whether there is a credential client to destroy. */
  datatype Config = Config(requireEncryption: bool, hasClient: bool)

  /** `adapter` is the number of the negotiator whose context it wraps; `negotiators` and `calls` count the
      negotiators created and the calls of post made; `trace` lists what has happened. */
  datatype State = State(phase: Phase, adapter: Option<nat>, connection: Option<Conn>,
                         negotiators: nat, calls: nat, trace: seq<Event>)

  const START := State(CredentialsReady, None, None, 0, 0, [])

  /** Between operations the session is never negotiating, and holds a context and a
      connection exactly when established. */
  predicate Valid(s: State) {
    && s.phase != Negotiating
    && (s.phase == Established <==> s.adapter.Some?)
    && (s.adapter.Some? <==> s.connection.Some?)
  }

  function Invalidate(s: State): State {
    s.(adapter := None, connection := None, phase := Invalid)
  }

  function EstablishStep(s: State, env: nat -> Attempt): (s': State)
    requires Valid(s) && s.phase != Closed
    ensures Valid(s') && s'.phase in {Established, Invalid}
  {
    if s.phase == Established then s
    else
      var boot := Establish(env, 0, MAX_BOOTSTRAP_EXCHANGES, s.negotiators);
      var s' := s.(negotiators := boot.negotiators, trace := s.trace + boot.events);
      if boot.outcome.None? then s'.(phase := Invalid)
      else s'.(phase := Established, adapter := Some(boot.outcome.value.0), connection := Some(boot.outcome.value.1))
  }

  function PostPlaintext(s: State, call: nat, env: PostEnv, message: bytes, maxBodySize: int): (r: (State,
                         Result<bytes>))
    requires Valid(s) && s.phase == Established
    ensures Valid(r.0)
  {
    if maxBodySize <= 0 then (s, Err("config"))
    else if !env.requestOk then (s, Err("config"))
    else
      var sent := s.(trace := s.trace + [Soap(s.adapter.value, call, message, env.conns)]);
      if env.reply.None? then (Invalidate(sent), Err("http"))
      else
        var (data, readError) := BoundedBody(env.reply.value.body, maxBodySize);
        var tracked := Track(Tracking(s.connection, None, false), env.conns);
        if tracked.current.None? || tracked.changed then (Invalidate(sent), Err("connection changed"))
        else if readError.Some? then (sent, Err("body"))
        else if env.reply.value.status != 200 then (sent, Err("status"))
        else if !env.reply.value.soap then (sent, Err("content type"))
        else (sent, Ok(data))
  }

  /** `post` on a session that is not closed. */
  function PostOpen(config: Config, s: State, call: nat, env: PostEnv, message: bytes, maxBodySize: int): (r: (State,
                    Result<bytes>))
    requires Valid(s) && s.phase != Closed
    ensures Valid(r.0)
  {
    var established := EstablishStep(s, env.attempts);
    if established.phase != Established then (established, Err("negotiate"))
    else if config.requireEncryption then (established, Err("wrap"))
    else PostPlaintext(established, call, env, message, maxBodySize)
  }

  function PostStep(config: Config, s: State, env: PostEnv, message: bytes, maxBodySize: int): (r: (State,
                    Result<bytes>))
    requires Valid(s)
    ensures Valid(r.0)
  {
    var counted := s.(calls := s.calls + 1);
    if s.phase == Closed then (counted, Err("closed"))
    else PostOpen(config, counted, s.calls, env, message, maxBodySize)
  }

  function CloseStep(config: Config, s: State): (s': State)
    requires Valid(s)
    ensures Valid(s') && s'.phase == Closed
  {
    if s.phase == Closed then s
    else
      State(Closed, None, None, s.negotiators, s.calls, if config.hasClient then s.trace + [Destroyed] else s.trace)
  }

  // ----- the session object -----

  class Session {
    const config: Config
    var state: Phase
    var adapter: Option<nat>
    var connection: Option<Conn>
    var negotiators: nat
    ghost var calls: nat
    ghost var trace: seq<Event>

    constructor (config: Config)
      ensures this.config == config && View() == START
    {
      this.config := config;
      state, adapter, connection := CredentialsReady, None, None;
      negotiators, calls, trace := 0, 0, [];
    }

    ghost function View(): State
      reads this
    {
      State(state, adapter, connection, negotiators, calls, trace)
    }

    method InvalidateLocked()
      modifies this
      ensures View() == Invalidate(old(View()))
    {
      adapter, connection, state := None, None, Invalid;
    }

    /** One turn of the bootstrap loop, once its request exists. */
    method Turn(attempt: Attempt, counting: CountingRoundTripper) returns (verdict: Verdict)
      modifies `negotiators, `trace, counting
      ensures negotiators == old(negotiators) + 1
      ensures var trips := Performed(attempt.trips, old(counting.remaining));
              && counting.remaining == old(counting.remaining) - |trips|
              && trace == old(trace) + TripEvents(old(negotiators), trips)
              && verdict == Judge(attempt, Track(NO_CONNECTION, FlattenConns(trips)))
    {
      var tracker := new ConnectionTracker(None);
      var negotiator := negotiators;
      negotiators := negotiators + 1;
      ghost var sent := Negotiate(negotiator, attempt.trips, counting, tracker);
      trace := trace + sent;
      if attempt.reply.None? {
        return GiveUp;
      }
      var response := attempt.reply.value;
      var (_, bodyError) := BoundedBody(response.body, MAX_BOOTSTRAP_BODY);
      if bodyError.Some? {
        return GiveUp;
      }
      if tracker.changed {
        return Restart;
      }
      if response.status != 200 || !attempt.context || tracker.current.None? {
        return GiveUp;
      }
      return Accept(tracker.current.value);
    }

    /** The body of the bootstrap loop: it either ends the bootstrap with an outcome, or leaves the rest of it to the
        next round, with less budget. */
    method Round(env: nat -> Attempt, round: nat, counting: CountingRoundTripper)
      returns (again: bool, outcome: Option<(nat, Conn)>)
      requires counting.remaining > 0
      modifies `negotiators, `trace, counting
      ensures again ==> counting.remaining < old(counting.remaining)
      ensures After(old(trace), Establish(env, round, old(counting.remaining), old(negotiators)))
           == if again then After(trace, Establish(env, round + 1, counting.remaining, negotiators))
              else Boot(trace, negotiators, outcome)
    {
      EstablishTurn(env, round, counting.remaining, negotiators, trace);
      if !env(round).requestOk {
        return false, None;
      }
      ChangeNeedsTrip(Performed(env(round).trips, counting.remaining));
      var verdict := Turn(env(round), counting);
      match verdict
      case GiveUp =>
        return false, None;
      case Restart =>
        return true, None;
      case Accept(conn) =>
        trace := trace + [Bound(negotiators - 1, conn)];
        return false, Some((negotiators - 1, conn));
    }

    /** The bootstrap loop of establishLocked: the context and connection to install, if it succeeds. */
    method Negotiation(env: nat -> Attempt, budget: nat) returns (outcome: Option<(nat, Conn)>)
      modifies `negotiators, `trace
      ensures Boot(trace, negotiators, outcome) == After(old(trace), Establish(env, 0, budget, old(negotiators)))
    {
      var counting := new CountingRoundTripper(budget);
      var round := 0;
      ghost var target := After(trace, Establish(env, 0, budget, negotiators));
      while counting.remaining > 0
        invariant fresh(counting)
        invariant target == After(trace, Establish(env, round, counting.remaining, negotiators))
        decreases counting.remaining
      {
        var again: bool;
        again, outcome := Round(env, round, counting);
        if !again {
          return;
        }
        round := round + 1;
      }
      EstablishTurn(env, round, 0, negotiators, trace);
      return None;
    }

    method EstablishLocked(env: nat -> Attempt) returns (ok: bool)
      requires Valid(View()) && state != Closed
      modifies this
      ensures View() == EstablishStep(old(View()), env)
      ensures ok == (state == Established)
    {
      if state == Established {
        return true;
      }
      if state == Invalid {
        state := CredentialsReady;
      }
      state := Negotiating;
      var outcome := Negotiation(env, MAX_BOOTSTRAP_EXCHANGES);
      if outcome.None? {
        state := Invalid;
        return false;
      }
      adapter, connection := Some(outcome.value.0), Some(outcome.value.1);
      state := Established;
      return true;
    }

    method PostPlaintextLocked(ghost call: nat, env: PostEnv, message: bytes, maxBodySize: int)
      returns (r: Result<bytes>)
      requires Valid(View()) && state == Established
      modifies this
      ensures (View(), r) == PostPlaintext(old(View()), call, env, message, maxBodySize)
    {
      if maxBodySize <= 0 || !env.requestOk {
        return Err("config");
      }
      var tracker := new ConnectionTracker(connection);
      tracker.GotAll(env.conns);
      trace := trace + [Soap(adapter.value, call, message, env.conns)];
      if env.reply.None? {
        InvalidateLocked();
        return Err("http");
      }
      var (data, readError) := BoundedBody(env.reply.value.body, maxBodySize);
      if tracker.current.None? || tracker.changed {
        InvalidateLocked();
        return Err("connection changed");
      }
      if readError.Some? {
        return Err("body");
      }
      if env.reply.value.status != 200 {
        return Err("status");
      }
      if !env.reply.value.soap {
        return Err("content type");
      }
      return Ok(data);
    }

    method Post(env: PostEnv, message: bytes, maxBodySize: int) returns (r: Result<bytes>)
      requires Valid(View())
      modifies this
      ensures (View(), r) == PostStep(config, old(View()), env, message, maxBodySize)
    {
      ghost var call := calls;
      calls := calls + 1;
      if state == Closed {
        return Err("closed");
      }
      var ok := EstablishLocked(env.attempts);
      if !ok {
        return Err("negotiate");
      }
      if config.requireEncryption {
        return Err("wrap");
      }
      r := PostPlaintextLocked(call, env, message, maxBodySize);
    }

    method Close()
      requires Valid(View())
      modifies this
      ensures View() == CloseStep(config, old(View()))
    {
      if state == Closed {
        return;
      }
      adapter, connection, state := None, None, Closed;
      if config.hasClient {
        trace := trace + [Destroyed];
      }
    }
  }
}
