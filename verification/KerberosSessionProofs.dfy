/** What every run of a session keeps, whatever the negotiator, the transport and the server do. */
module KerberosSessionProofs {

  import opened Wrappers
  import opened Bytes
  import opened BoundedReader
  import opened KerberosSession

  // ----- tracking -----

  /** The tracker reports a change exactly when two of the connections it saw, or one of them
      and the expected one, differ. */
  lemma {:induction false} TrackIff(t: Tracking, conns: seq<Conn>)
    ensures var end := Track(t, conns);
            && (end.changed <==>
                 || t.changed
                 || (exists i :: 0 <= i < |conns| && t.expected.Some? && conns[i] != t.expected.value)
                 || (exists i :: 0 <= i < |conns| && t.current.Some? && conns[i] != t.current.value)
                 || (exists i, j :: 0 <= i < j < |conns| && conns[i] != conns[j]))
            && end.current == (if |conns| == 0 then t.current else Some(conns[|conns| - 1]))
    decreases |conns|
  {
    if |conns| > 0 {
      var next, rest := GotConn(t, conns[0]), conns[1..];
      TrackIff(next, rest);
      assert forall i :: 0 <= i < |rest| ==> rest[i] == conns[i + 1];
      assert forall i :: 1 <= i < |conns| ==> conns[i] == rest[i - 1];
    }
  }

  ghost predicate AllOn(conns: seq<Conn>, conn: Conn) {
    forall c :: c in conns ==> c == conn
  }

  /** An unchanged, non-empty exchange ran on one connection: the expected one, if there is one. */
  lemma UnchangedIsOneConnection(expected: Option<Conn>, conns: seq<Conn>)
    requires var end := Track(Tracking(expected, None, false), conns); !end.changed && end.current.Some?
    ensures |conns| > 0
    ensures AllOn(conns, Track(Tracking(expected, None, false), conns).current.value)
    ensures expected.Some? ==> Track(Tracking(expected, None, false), conns).current == expected
  {
    TrackIff(Tracking(expected, None, false), conns);
    var last := conns[|conns| - 1];
    forall c | c in conns ensures c == last {
      var i :| 0 <= i < |conns| && conns[i] == c;
      assert i < |conns| - 1 ==> conns[i] == conns[|conns| - 1];
    }
  }

  // ----- the protocol, as a rule on the next event of a trace -----

  /** The negotiator that an event belongs to. */
  function Label(e: Event): nat {
    match e
    case Bootstrap(k, _) => k
    case Bound(k, _) => k
    case Soap(k, _, _, _) => k
    case Destroyed => 0
  }

  ghost predicate LabelsAtMost(trace: seq<Event>, k: nat) {
    forall e :: e in trace && !e.Destroyed? ==> Label(e) <= k
  }

  ghost predicate LabelsBelow(trace: seq<Event>, k: nat) {
    forall e :: e in trace && !e.Destroyed? ==> Label(e) < k
  }

  /** Every bootstrap exchange of negotiator `k` ran on connection `c`. */
  ghost predicate BootstrappedOn(trace: seq<Event>, k: nat, c: Conn) {
    forall conns :: Bootstrap(k, conns) in trace ==> AllOn(conns, c)
  }

  /** The SOAP exchanges so far belong to earlier calls. */
  ghost predicate CallsBelow(trace: seq<Event>, call: nat) {
    forall k: nat, n: nat, body, conns :: Soap(k, n, body, conns) in trace ==> n < call
  }

  /** What may happen next.  Nothing follows the destruction of the credentials.  Negotiators take turns: an event
      belongs to the latest one.  A negotiator is bound once, after its exchanges, to the one connection that all of
      them ran on.  SOAP is sent only for the bound negotiator, and each call of post sends at most once, in order. */
  ghost predicate Legal(trace: seq<Event>, e: Event) {
    && Destroyed !in trace
    && match e
       case Bootstrap(k, _) => LabelsAtMost(trace, k) && forall c :: Bound(k, c) !in trace
       case Bound(k, c) =>
         && LabelsAtMost(trace, k)
         && (forall d :: Bound(k, d) !in trace)
         && BootstrappedOn(trace, k, c)
         && (exists conns :: Bootstrap(k, conns) in trace && c in conns)
       case Soap(k, call, _, _) =>
         LabelsAtMost(trace, k) && (exists c :: Bound(k, c) in trace) && CallsBelow(trace, call)
       case Destroyed => true
  }

  ghost predicate LegalTrace(trace: seq<Event>) {
    |trace| == 0 || (LegalTrace(trace[..|trace| - 1]) && Legal(trace[..|trace| - 1], trace[|trace| - 1]))
  }

  lemma LegalPush(trace: seq<Event>, e: Event)
    requires LegalTrace(trace) && Legal(trace, e)
    ensures LegalTrace(trace + [e])
  {
    assert (trace + [e])[..|trace|] == trace;
  }

  lemma {:induction false} LegalAt(trace: seq<Event>, i: nat)
    requires LegalTrace(trace) && i < |trace|
    ensures Legal(trace[..i], trace[i])
    decreases |trace|
  {
    if i < |trace| - 1 {
      LegalAt(trace[..|trace| - 1], i);
      assert trace[..|trace| - 1][..i] == trace[..i];
    }
  }

  // ----- bootstrap keeps the protocol -----

  /** The state of a trace before negotiator `k` starts: no event of it yet. */
  ghost predicate Fresh(trace: seq<Event>, k: nat) {
    LegalTrace(trace) && LabelsBelow(trace, k) && Destroyed !in trace
  }

  lemma {:induction false} TripsAreLegal(trace: seq<Event>, k: nat, trips: seq<seq<Conn>>)
    requires Fresh(trace, k)
    ensures Fresh(trace + TripEvents(k, trips), k + 1)
    ensures forall c :: Bound(k, c) !in trace + TripEvents(k, trips)
    ensures forall conns :: Bootstrap(k, conns) in trace + TripEvents(k, trips) ==> conns in trips
  {
    if |trips| == 0 {
      assert trace + TripEvents(k, trips) == trace;
    } else {
      var n := |trips| - 1;
      TripsAreLegal(trace, k, trips[..n]);
      var before := trace + TripEvents(k, trips[..n]);
      LegalPush(before, Bootstrap(k, trips[n]));
      assert trace + TripEvents(k, trips) == before + [Bootstrap(k, trips[n])];
    }
  }

  lemma {:induction false} FlattenContains(trips: seq<seq<Conn>>, conns: seq<Conn>, c: Conn)
    requires conns in trips && c in conns
    ensures c in FlattenConns(trips)
  {
    if conns != trips[0] {
      FlattenContains(trips[1..], conns, c);
    }
  }

  lemma {:induction false} FlattenFrom(trips: seq<seq<Conn>>, c: Conn)
    requires c in FlattenConns(trips)
    ensures exists conns :: conns in trips && c in conns
  {
    if c in trips[0] {
      assert trips[0] in trips;
    } else {
      FlattenFrom(trips[1..], c);
      var conns :| conns in trips[1..] && c in conns;
      assert conns in trips;
    }
  }

  lemma BoundIsLegal(trace: seq<Event>, k: nat, trips: seq<seq<Conn>>)
    requires Fresh(trace, k)
    requires var end := Track(NO_CONNECTION, FlattenConns(trips)); !end.changed && end.current.Some?
    ensures var c := Track(NO_CONNECTION, FlattenConns(trips)).current.value;
            var after := trace + TripEvents(k, trips) + [Bound(k, c)];
            Fresh(after, k + 1) && Bound(k, c) in after
  {
    var conns := FlattenConns(trips);
    var c := Track(NO_CONNECTION, conns).current.value;
    var before := trace + TripEvents(k, trips);
    TripsAreLegal(trace, k, trips);
    UnchangedIsOneConnection(None, conns);
    TrackIff(NO_CONNECTION, conns);
    forall trip | Bootstrap(k, trip) in before ensures AllOn(trip, c) {
      forall x | x in trip ensures x == c {
        FlattenContains(trips, trip, x);
      }
    }
    FlattenFrom(trips, c);
    var trip :| trip in trips && c in trip;
    var i :| 0 <= i < |trips| && trips[i] == trip;
    assert TripEvents(k, trips)[i] == Bootstrap(k, trip);
    assert Bootstrap(k, trip) in before;
    LegalPush(before, Bound(k, c));
  }

  /** A finished bootstrap kept the protocol, and if it succeeded, it bound its latest negotiator. */
  ghost predicate LegalBoot(boot: Boot) {
    && Fresh(boot.events, boot.negotiators)
    && (boot.outcome.Some? ==>
          && boot.negotiators == boot.outcome.value.0 + 1
          && Bound(boot.outcome.value.0, boot.outcome.value.1) in boot.events)
  }

  lemma LegalGiveUp(trace: seq<Event>, k: nat, trips: seq<seq<Conn>>)
    requires Fresh(trace, k)
    ensures LegalBoot(Boot(trace + TripEvents(k, trips), k + 1, None))
  {
    TripsAreLegal(trace, k, trips);
  }

  lemma LegalAccept(trace: seq<Event>, k: nat, trips: seq<seq<Conn>>, c: Conn)
    requires Fresh(trace, k)
    requires var end := Track(NO_CONNECTION, FlattenConns(trips)); !end.changed && end.current == Some(c)
    ensures LegalBoot(Boot(trace + TripEvents(k, trips) + [Bound(k, c)], k + 1, Some((k, c))))
  {
    BoundIsLegal(trace, k, trips);
  }

  /** A whole bootstrap keeps the protocol, whatever the negotiators and the connections do. */
  lemma {:induction false} EstablishIsLegal(env: nat -> Attempt, round: nat, remaining: nat, negotiators: nat,
                                            trace: seq<Event>)
    requires Fresh(trace, negotiators)
    ensures LegalBoot(After(trace, Establish(env, round, remaining, negotiators)))
    decreases remaining
  {
    EstablishTurn(env, round, remaining, negotiators, trace);
    if remaining > 0 && env(round).requestOk {
      var trips := Performed(env(round).trips, remaining);
      match Judge(env(round), Track(NO_CONNECTION, FlattenConns(trips)))
      case GiveUp =>
        LegalGiveUp(trace, negotiators, trips);
      case Restart =>
        ChangeNeedsTrip(trips);
        TripsAreLegal(trace, negotiators, trips);
        EstablishIsLegal(env, round + 1, remaining - |trips|, negotiators + 1, trace + TripEvents(negotiators, trips));
      case Accept(conn) =>
        LegalAccept(trace, negotiators, trips, conn);
    }
  }

  // ----- budget -----

  /** The number of HTTP requests in a trace. */
  function HttpCount(trace: seq<Event>): nat {
    if |trace| == 0 then 0
    else (if trace[0].Bootstrap? || trace[0].Soap? then 1 else 0) + HttpCount(trace[1..])
  }

  lemma {:induction false} HttpCountConcat(a: seq<Event>, b: seq<Event>)
    ensures HttpCount(a + b) == HttpCount(a) + HttpCount(b)
  {
    if |a| == 0 {
      assert a + b == b;
    } else {
      assert (a + b)[1..] == a[1..] + b;
      HttpCountConcat(a[1..], b);
    }
  }

  lemma {:induction false} HttpCountTrips(k: nat, trips: seq<seq<Conn>>)
    ensures HttpCount(TripEvents(k, trips)) == |trips|
  {
    if |trips| > 0 {
      assert TripEvents(k, trips)[1..] == TripEvents(k, trips[1..]);
      HttpCountTrips(k, trips[1..]);
    }
  }

  lemma BindingIsFree(trace: seq<Event>, k: nat, c: Conn)
    ensures HttpCount(trace + [Bound(k, c)]) == HttpCount(trace)
  {
    HttpCountConcat(trace, [Bound(k, c)]);
    assert [Bound(k, c)][1..] == [];
  }

  /** What the exchanges of one negotiator cost. */
  lemma TripsCost(trace: seq<Event>, k: nat, trips: seq<seq<Conn>>)
    ensures HttpCount(trace + TripEvents(k, trips)) == HttpCount(trace) + |trips|
  {
    HttpCountTrips(k, trips);
    HttpCountConcat(trace, TripEvents(k, trips));
  }

  predicate WithinBudget(trace: seq<Event>, boot: Boot, budget: nat, negotiators: nat) {
    HttpCount(boot.events) <= HttpCount(trace) + budget && negotiators <= boot.negotiators <= negotiators + budget
  }

  /** One bootstrap never exceeds its budget of base round trips, nor that number of
      negotiators, across all restarts. */
  lemma {:induction false} EstablishWithinBudget(env: nat -> Attempt, round: nat, remaining: nat, negotiators: nat,
                                                 trace: seq<Event>)
    ensures WithinBudget(trace, After(trace, Establish(env, round, remaining, negotiators)), remaining, negotiators)
    decreases remaining
  {
    EstablishTurn(env, round, remaining, negotiators, trace);
    if remaining > 0 && env(round).requestOk {
      var trips := Performed(env(round).trips, remaining);
      var sent := trace + TripEvents(negotiators, trips);
      TripsCost(trace, negotiators, trips);
      match Judge(env(round), Track(NO_CONNECTION, FlattenConns(trips)))
      case GiveUp =>
      case Restart =>
        ChangeNeedsTrip(trips);
        EstablishWithinBudget(env, round + 1, remaining - |trips|, negotiators + 1, sent);
      case Accept(conn) =>
        BindingIsFree(sent, negotiators, conn);
    }
  }

  /** Every exchange obtains at most one connection: the transport does not retry inside a round trip. */
  ghost predicate OneConnectionPerTrip(env: nat -> Attempt) {
    forall round, i :: 0 <= i < |env(round).trips| ==> |env(round).trips[i]| <= 1
  }

  lemma {:induction false} FlattenShort(trips: seq<seq<Conn>>)
    requires forall i :: 0 <= i < |trips| ==> |trips[i]| <= 1
    ensures |FlattenConns(trips)| <= |trips|
  {
    if |trips| > 0 {
      FlattenShort(trips[1..]);
    }
  }

  /** Then every restart costs two round trips, so that five of them serve at most three negotiators. */
  lemma {:induction false} FewNegotiators(env: nat -> Attempt, round: nat, remaining: nat, negotiators: nat)
    requires OneConnectionPerTrip(env)
    ensures Establish(env, round, remaining, negotiators).negotiators <= negotiators + (remaining + 1) / 2
    decreases remaining
  {
    if remaining > 0 && env(round).requestOk {
      var trips := Performed(env(round).trips, remaining);
      FlattenShort(trips);
      ChangeNeedsTrip(trips);
      if Judge(env(round), Track(NO_CONNECTION, FlattenConns(trips))).Restart? {
        FewNegotiators(env, round + 1, remaining - |trips|, negotiators + 1);
      }
    }
  }

  // ----- what the protocol rules mean for a whole trace -----

  lemma EarlierEvents(trace: seq<Event>, n: nat)
    requires n <= |trace|
    ensures forall i :: 0 <= i < n ==> trace[i] in trace[..n]
  {
    forall i | 0 <= i < n ensures trace[i] in trace[..n] {
      assert trace[..n][i] == trace[i];
    }
  }

  lemma BootstrapBeforeBound(trace: seq<Event>, v: nat, u: nat, k: nat)
    requires LegalTrace(trace) && v < |trace| && u < |trace|
    requires trace[v].Bootstrap? && trace[v].negotiator == k && trace[u].Bound? && trace[u].negotiator == k
    ensures v < u && trace[v] in trace[..u]
  {
    LegalAt(trace, v);
    EarlierEvents(trace, v);
    EarlierEvents(trace, u);
    assert trace[u] == Bound(k, trace[u].conn);
  }

  /** The security context of a bound negotiator was negotiated on its connection only, by at least one exchange. */
  lemma BoundMeansBootstrapped(trace: seq<Event>, k: nat, c: Conn)
    requires LegalTrace(trace) && Bound(k, c) in trace
    ensures BootstrappedOn(trace, k, c)
    ensures exists conns :: Bootstrap(k, conns) in trace && c in conns
  {
    var u :| 0 <= u < |trace| && trace[u] == Bound(k, c);
    LegalAt(trace, u);
    var conns :| Bootstrap(k, conns) in trace[..u] && c in conns;
    assert Bootstrap(k, conns) in trace;
    forall conns | Bootstrap(k, conns) in trace ensures AllOn(conns, c) {
      var v :| 0 <= v < |trace| && trace[v] == Bootstrap(k, conns);
      BootstrapBeforeBound(trace, v, u, k);
    }
  }

  lemma LabelsInOrder(trace: seq<Event>, i: nat, j: nat)
    requires LegalTrace(trace) && i < j < |trace|
    ensures !trace[i].Destroyed?
    ensures !trace[j].Destroyed? ==> Label(trace[i]) <= Label(trace[j])
  {
    LegalAt(trace, j);
    EarlierEvents(trace, j);
  }

  lemma BoundEndsNegotiation(trace: seq<Event>, u: nat, v: nat)
    requires LegalTrace(trace) && u < v < |trace| && trace[u].Bound?
    ensures trace[v].Bootstrap? || trace[v].Bound? ==> trace[v].negotiator != trace[u].negotiator
  {
    LegalAt(trace, v);
    EarlierEvents(trace, v);
    assert Bound(trace[u].negotiator, trace[u].conn) in trace[..v];
  }

  lemma BetweenBoundAndSoap(trace: seq<Event>, u: nat, v: nat, t: nat)
    requires LegalTrace(trace) && u < v < t < |trace|
    requires trace[u].Bound? && trace[t].Soap? && trace[u].negotiator == trace[t].negotiator
    ensures trace[v].Soap? && trace[v].negotiator == trace[t].negotiator
  {
    LabelsInOrder(trace, u, v);
    LabelsInOrder(trace, v, t);
    BoundEndsNegotiation(trace, u, v);
  }

  /** The SOAP exchange at `t` comes after the binding of its context, with only
      exchanges of that context in between. */
  ghost predicate FollowsBound(trace: seq<Event>, t: nat)
    requires t < |trace| && trace[t].Soap?
  {
    exists u, c: Conn ::
      && 0 <= u < t && trace[u] == Bound(trace[t].negotiator, c)
      && forall v :: u < v < t ==> trace[v].Soap? && trace[v].negotiator == trace[t].negotiator
  }

  /** Every SOAP exchange comes after a successful bootstrap, and after no later bootstrap has begun. */
  lemma SoapFollowsBound(trace: seq<Event>, t: nat)
    requires LegalTrace(trace) && t < |trace| && trace[t].Soap?
    ensures FollowsBound(trace, t)
  {
    var k := trace[t].negotiator;
    LegalAt(trace, t);
    var c: Conn :| Bound(k, c) in trace[..t];
    var u :| 0 <= u < t && trace[..t][u] == Bound(k, c);
    assert trace[u] == Bound(k, c);
    forall v | u < v < t ensures trace[v].Soap? && trace[v].negotiator == k {
      BetweenBoundAndSoap(trace, u, v, t);
    }
  }

  /** SOAP exchanges happen in the order of the calls, at most one for each. */
  lemma CallsIncrease(trace: seq<Event>, i: nat, j: nat)
    requires LegalTrace(trace) && i < j < |trace| && trace[i].Soap? && trace[j].Soap?
    ensures trace[i].call < trace[j].call
  {
    LegalAt(trace, j);
    assert trace[..j][i] == trace[i];
  }

  /** The credentials are destroyed at most once, and nothing is sent afterwards: no event follows it. */
  lemma NothingFollowsDestroyed(trace: seq<Event>, i: nat, j: nat)
    requires LegalTrace(trace) && i < j < |trace|
    ensures !trace[i].Destroyed?
  {
    LegalAt(trace, j);
    EarlierEvents(trace, j);
  }

  // ----- the invariant of a run -----

  ghost predicate NoSoap(trace: seq<Event>) {
    forall e :: e in trace ==> !e.Soap?
  }

  ghost predicate Inv(config: Config, s: State) {
    && Valid(s)
    && LegalTrace(s.trace)
    && LabelsBelow(s.trace, s.negotiators)
    && CallsBelow(s.trace, s.calls)
    && (Destroyed in s.trace ==> s.phase == Closed)
    && (s.phase == Established ==>
          Bound(s.adapter.value, s.connection.value) in s.trace && s.negotiators == s.adapter.value + 1)
    && (config.requireEncryption ==> NoSoap(s.trace))
  }

  /** The events that a call of `post` adds: at most five bootstrap exchanges and at most one SOAP exchange, which
      carries the posted message. */
  ghost predicate PostAdds(added: seq<Event>, call: nat, message: bytes) {
    && HttpCount(added) <= MAX_BOOTSTRAP_EXCHANGES + 1
    && forall e :: e in added && e.Soap? ==> e.call == call && e.body == message
  }

  lemma EstablishHasNoSoap(env: nat -> Attempt, round: nat, remaining: nat, negotiators: nat)
    ensures NoSoap(Establish(env, round, remaining, negotiators).events)
    decreases remaining
  {
    if remaining > 0 && env(round).requestOk {
      var trips := Performed(env(round).trips, remaining);
      if Judge(env(round), Track(NO_CONNECTION, FlattenConns(trips))).Restart? {
        ChangeNeedsTrip(trips);
        EstablishHasNoSoap(env, round + 1, remaining - |trips|, negotiators + 1);
      }
    }
  }

  lemma NoSoapConcat(a: seq<Event>, b: seq<Event>, call: nat)
    requires NoSoap(b)
    ensures CallsBelow(a, call) ==> CallsBelow(a + b, call)
    ensures NoSoap(a) ==> NoSoap(a + b)
  {
    assert forall e :: e in a + b ==> e in a || e in b;
  }

  /** Establishing keeps the invariant and adds at most five empty-bodied requests. */
  lemma EstablishKeeps(config: Config, s: State, env: nat -> Attempt) returns (added: seq<Event>)
    requires Inv(config, s) && s.phase != Closed
    ensures Inv(config, EstablishStep(s, env))
    ensures EstablishStep(s, env).trace == s.trace + added
    ensures NoSoap(added) && HttpCount(added) <= MAX_BOOTSTRAP_EXCHANGES
    ensures EstablishStep(s, env).calls == s.calls
  {
    if s.phase == Established {
      added := [];
      assert s.trace + [] == s.trace;
    } else {
      var boot := Establish(env, 0, MAX_BOOTSTRAP_EXCHANGES, s.negotiators);
      added := boot.events;
      EstablishIsLegal(env, 0, MAX_BOOTSTRAP_EXCHANGES, s.negotiators, s.trace);
      EstablishHasNoSoap(env, 0, MAX_BOOTSTRAP_EXCHANGES, s.negotiators);
      EstablishWithinBudget(env, 0, MAX_BOOTSTRAP_EXCHANGES, s.negotiators, s.trace);
      HttpCountConcat(s.trace, added);
      NoSoapConcat(s.trace, added, s.calls);
    }
  }

  lemma SoapIsLegal(config: Config, s: State, call: nat, message: bytes, conns: seq<Conn>)
    requires Inv(config, s) && s.phase == Established && !config.requireEncryption
             && CallsBelow(s.trace, call) && call < s.calls
    ensures var sent := s.(trace := s.trace + [Soap(s.adapter.value, call, message, conns)]);
            Inv(config, sent) && Inv(config, Invalidate(sent))
  {
    LegalPush(s.trace, Soap(s.adapter.value, call, message, conns));
  }

  /** Whether the SOAP exchange takes place at all. */
  predicate Exchanges(env: PostEnv, maxBodySize: int) {
    maxBodySize > 0 && env.requestOk
  }

  /** The outcomes of the SOAP exchange, as far as the state goes. */
  lemma PlaintextStates(s: State, call: nat, env: PostEnv, message: bytes, maxBodySize: int)
    requires Valid(s) && s.phase == Established
    ensures (var after := PostPlaintext(s, call, env, message, maxBodySize).0;
             var sent := s.(trace := s.trace + [Soap(s.adapter.value, call, message, env.conns)]);
             if Exchanges(env, maxBodySize) then after == sent || after == Invalidate(sent) else after == s)
  {
  }

  lemma PlaintextKeeps(config: Config, s: State, call: nat, env: PostEnv, message: bytes, maxBodySize: int)
    returns (added: seq<Event>)
    requires Inv(config, s) && s.phase == Established && !config.requireEncryption
             && CallsBelow(s.trace, call) && call < s.calls
    ensures var after := PostPlaintext(s, call, env, message, maxBodySize).0;
            Inv(config, after) && after.trace == s.trace + added && after.calls == s.calls && after.phase != Closed
    ensures added == [] || added == [Soap(s.adapter.value, call, message, env.conns)]
  {
    PlaintextStates(s, call, env, message, maxBodySize);
    SoapIsLegal(config, s, call, message, env.conns);
    added := if Exchanges(env, maxBodySize) then [Soap(s.adapter.value, call, message, env.conns)] else [];
    assert s.trace + [] == s.trace;
  }

  lemma AddedByPost(boot: seq<Event>, sent: seq<Event>, k: nat, call: nat, message: bytes, conns: seq<Conn>)
    requires NoSoap(boot) && HttpCount(boot) <= MAX_BOOTSTRAP_EXCHANGES
    requires sent == [] || sent == [Soap(k, call, message, conns)]
    ensures PostAdds(boot + sent, call, message)
  {
    HttpCountConcat(boot, sent);
    assert HttpCount(sent) <= 1;
    assert forall e :: e in boot + sent ==> e in boot || e in sent;
  }

  /** `added` takes the session from `s` to `s'` within the protocol, and carries nothing but this call's message. */
  ghost predicate Kept(config: Config, s: State, s': State, added: seq<Event>, message: bytes) {
    && Inv(config, s')
    && s'.trace == s.trace + added
    && s'.calls == s.calls + 1
    && PostAdds(added, s.calls, message)
  }

  lemma CountedKeeps(config: Config, s: State, message: bytes)
    requires Inv(config, s)
    ensures Kept(config, s, s.(calls := s.calls + 1), [], message)
  {
    assert s.trace + [] == s.trace;
  }

  /** The two halves of `post`, put together. */
  lemma KeptTwice(config: Config, s: State, middle: State, end: State, boot: seq<Event>, sent: seq<Event>,
                  k: nat, message: bytes, conns: seq<Conn>)
    requires Inv(config, end) && end.calls == s.calls + 1
    requires middle.trace == s.trace + boot && end.trace == middle.trace + sent
    requires NoSoap(boot) && HttpCount(boot) <= MAX_BOOTSTRAP_EXCHANGES
    requires sent == [] || sent == [Soap(k, s.calls, message, conns)]
    ensures Kept(config, s, end, boot + sent, message)
  {
    AddedByPost(boot, sent, k, s.calls, message, conns);
    assert s.trace + boot + sent == s.trace + (boot + sent);
  }

  /** `post` on a session that is not closed. */
  lemma OpenPostKeeps(config: Config, s: State, env: PostEnv, message: bytes, maxBodySize: int)
    returns (added: seq<Event>)
    requires Inv(config, s) && s.phase != Closed
    ensures Kept(config, s, PostOpen(config, s.(calls := s.calls + 1), s.calls, env, message, maxBodySize).0,
                 added, message)
  {
    var counted := s.(calls := s.calls + 1);
    CountedKeeps(config, s, message);
    var boot := EstablishKeeps(config, counted, env.attempts);
    var middle := EstablishStep(counted, env.attempts);
    if middle.phase != Established || config.requireEncryption {
      KeptTwice(config, s, middle, middle, boot, [], 0, message, []);
      added := boot + [];
    } else {
      NoSoapConcat(s.trace, boot, s.calls);
      var sent := PlaintextKeeps(config, middle, s.calls, env, message, maxBodySize);
      var end := PostPlaintext(middle, s.calls, env, message, maxBodySize).0;
      KeptTwice(config, s, middle, end, boot, sent, middle.adapter.value, message, env.conns);
      added := boot + sent;
    }
  }

  lemma PostUnfolds(config: Config, s: State, env: PostEnv, message: bytes, maxBodySize: int)
    requires Valid(s)
    ensures (var after := PostStep(config, s, env, message, maxBodySize).0;
             var counted := s.(calls := s.calls + 1);
             if s.phase == Closed then after == counted
             else after == PostOpen(config, counted, s.calls, env, message, maxBodySize).0)
  {
  }

  lemma ClosedPostKeeps(config: Config, s: State, env: PostEnv, message: bytes, maxBodySize: int)
    requires Inv(config, s) && s.phase == Closed
    ensures (var after := PostStep(config, s, env, message, maxBodySize).0;
             Kept(config, s, after, [], message) && after.phase == Closed)
  {
    PostUnfolds(config, s, env, message, maxBodySize);
    CountedKeeps(config, s, message);
  }

  /** Every call of `post` keeps the invariant, stays within six requests, and sends nothing but its own message. */
  lemma PostKeeps(config: Config, s: State, env: PostEnv, message: bytes, maxBodySize: int) returns (added: seq<Event>)
    requires Inv(config, s)
    ensures Kept(config, s, PostStep(config, s, env, message, maxBodySize).0, added, message)
    ensures s.phase == Closed ==> added == [] && PostStep(config, s, env, message, maxBodySize).0.phase == Closed
  {
    if s.phase == Closed {
      ClosedPostKeeps(config, s, env, message, maxBodySize);
      added := [];
    } else {
      PostUnfolds(config, s, env, message, maxBodySize);
      added := OpenPostKeeps(config, s, env, message, maxBodySize);
    }
  }

  lemma CloseKeeps(config: Config, s: State)
    requires Inv(config, s)
    ensures Inv(config, CloseStep(config, s))
    ensures HttpCount(CloseStep(config, s).trace) == HttpCount(s.trace)
    ensures s.trace <= CloseStep(config, s).trace
    ensures forall e :: e in CloseStep(config, s).trace && e !in s.trace ==> e.Destroyed?
  {
    if s.phase != Closed && config.hasClient {
      LegalPush(s.trace, Destroyed);
      HttpCountConcat(s.trace, [Destroyed]);
    }
  }

  // ----- runs -----

  datatype Op = PostOp(env: PostEnv, message: bytes, maxBodySize: int) | CloseOp

  function Step(config: Config, s: State, op: Op): (r: (State, Option<Result<bytes>>))
    requires Valid(s)
    ensures Valid(r.0)
  {
    match op
    case PostOp(env, message, maxBodySize) =>
      var (s', result) := PostStep(config, s, env, message, maxBodySize);
      (s', Some(result))
    case CloseOp => (CloseStep(config, s), None)
  }

  /** The state after a sequence of operations. */
  function Run(config: Config, s: State, ops: seq<Op>): (s': State)
    requires Valid(s)
    ensures Valid(s')
    decreases |ops|
  {
    if |ops| == 0 then s else Run(config, Step(config, s, ops[0]).0, ops[1..])
  }

  /** The messages posted, in order. */
  function Posted(ops: seq<Op>): seq<bytes> {
    if |ops| == 0 then []
    else if ops[0].PostOp? then [ops[0].message] + Posted(ops[1..])
    else Posted(ops[1..])
  }

  /** The SOAP exchanges that are new carry the message of this operation. */
  ghost predicate SendsOnly(before: seq<Event>, after: seq<Event>, call: nat, op: Op) {
    forall e :: e in after && e !in before && e.Soap? ==> op.PostOp? && e.call == call && e.body == op.message
  }

  lemma StepKeeps(config: Config, s: State, op: Op)
    requires Inv(config, s)
    ensures var s' := Step(config, s, op).0;
            && Inv(config, s')
            && s.trace <= s'.trace
            && s'.calls == s.calls + |Posted([op])|
            && HttpCount(s'.trace) <= HttpCount(s.trace) + (MAX_BOOTSTRAP_EXCHANGES + 1) * |Posted([op])|
            && SendsOnly(s.trace, s'.trace, s.calls, op)
            && (s.phase == Closed ==> s'.phase == Closed && s'.trace == s.trace)
  {
    PostedOne(op);
    match op
    case PostOp(env, message, maxBodySize) =>
      var added := PostKeeps(config, s, env, message, maxBodySize);
      HttpCountConcat(s.trace, added);
      assert forall e :: e in s.trace + added ==> e in s.trace || e in added;
      assert s.trace + [] == s.trace;
    case CloseOp =>
      CloseKeeps(config, s);
  }

  lemma PostedSplit(op: Op, ops: seq<Op>)
    ensures Posted([op] + ops) == Posted([op]) + Posted(ops)
  {
    assert ([op] + ops)[1..] == ops;
    assert [op][1..] == [];
  }

  /** Every SOAP body in the trace is the message of the call that sent it. */
  ghost predicate SentFrom(trace: seq<Event>, first: nat, messages: seq<bytes>, earlier: seq<Event>) {
    forall e :: e in trace && e.Soap? && e !in earlier ==>
      first <= e.call < first + |messages| && e.body == messages[e.call - first]
  }

  lemma PostedOne(op: Op)
    ensures Posted([op]) == if op.PostOp? then [op.message] else []
  {
    assert [op][1..] == [];
  }

  lemma SentFromSteps(earlier: seq<Event>, next: seq<Event>, end: seq<Event>, first: nat, op: Op, messages: seq<bytes>)
    requires SendsOnly(earlier, next, first, op)
    requires SentFrom(end, first + |Posted([op])|, messages, next)
    ensures SentFrom(end, first, Posted([op]) + messages, earlier)
  {
    var posted := Posted([op]);
    PostedOne(op);
    forall e | e in end && e.Soap? && e !in earlier
      ensures first <= e.call < first + |posted + messages| && e.body == (posted + messages)[e.call - first]
    {
    }
  }

  /** Every run keeps the invariant, and makes at most six HTTP requests for each call of `post`. */
  lemma {:induction false} RunKeeps(config: Config, s: State, ops: seq<Op>)
    requires Inv(config, s)
    ensures var s' := Run(config, s, ops);
            && Inv(config, s')
            && s.trace <= s'.trace
            && HttpCount(s'.trace) <= HttpCount(s.trace) + (MAX_BOOTSTRAP_EXCHANGES + 1) * |Posted(ops)|
            && (s.phase == Closed ==> s'.phase == Closed && s'.trace == s.trace)
    decreases |ops|
  {
    if |ops| > 0 {
      StepKeeps(config, s, ops[0]);
      RunKeeps(config, Step(config, s, ops[0]).0, ops[1..]);
      assert ops == [ops[0]] + ops[1..];
      PostedSplit(ops[0], ops[1..]);
    }
  }

  /** In every run, a SOAP body is sent only by the call that posted it. */
  lemma {:induction false} RunSentFrom(config: Config, s: State, ops: seq<Op>)
    requires Inv(config, s)
    ensures SentFrom(Run(config, s, ops).trace, s.calls, Posted(ops), s.trace)
    decreases |ops|
  {
    if |ops| > 0 {
      var next := Step(config, s, ops[0]).0;
      StepKeeps(config, s, ops[0]);
      RunSentFrom(config, next, ops[1..]);
      assert ops == [ops[0]] + ops[1..];
      PostedSplit(ops[0], ops[1..]);
      SentFromSteps(s.trace, next.trace, Run(config, s, ops).trace, s.calls, ops[0], Posted(ops[1..]));
    }
  }

  lemma StartInv(config: Config)
    ensures Inv(config, START)
  {
  }

  /** In every run: at most six HTTP requests for each call of `post`; each SOAP body is the message of its call. */
  lemma RunSends(config: Config, ops: seq<Op>)
    ensures var trace := Run(config, START, ops).trace;
            && LegalTrace(trace)
            && HttpCount(trace) <= (MAX_BOOTSTRAP_EXCHANGES + 1) * |Posted(ops)|
            && (forall e :: e in trace && e.Soap? ==> e.call < |Posted(ops)| && e.body == Posted(ops)[e.call])
  {
    StartInv(config);
    RunKeeps(config, START, ops);
    RunSentFrom(config, START, ops);
  }

  /** The protocol of a whole run.  SOAP exchanges happen in the order of the calls, at most one for each; each of
      them follows a successful bootstrap, with nothing in between but exchanges of the same context; and the
      credentials are destroyed at most once, after which nothing happens. */
  lemma RunOrder(config: Config, ops: seq<Op>)
    ensures var trace := Run(config, START, ops).trace;
            && (forall i, j :: 0 <= i < j < |trace| && trace[i].Soap? && trace[j].Soap? ==>
                   trace[i].call < trace[j].call)
            && (forall t :: 0 <= t < |trace| && trace[t].Soap? ==> FollowsBound(trace, t))
            && (forall i :: 0 <= i < |trace| - 1 ==> !trace[i].Destroyed?)
  {
    var trace := Run(config, START, ops).trace;
    RunSends(config, ops);
    forall i, j | 0 <= i < j < |trace| && trace[i].Soap? && trace[j].Soap? ensures trace[i].call < trace[j].call {
      CallsIncrease(trace, i, j);
    }
    forall i | 0 <= i < |trace| - 1 ensures !trace[i].Destroyed? {
      NothingFollowsDestroyed(trace, i, i + 1);
    }
    forall t | 0 <= t < |trace| && trace[t].Soap? ensures FollowsBound(trace, t) {
      SoapFollowsBound(trace, t);
    }
  }

  // ----- binding -----

  /** The session is established, with the context of negotiator `k` on connection `c`. */
  predicate Holds(s: State, k: nat, c: Conn) {
    s.phase == Established && s.adapter == Some(k) && s.connection == Some(c)
  }

  /** What a successful `post` did: the last event is its SOAP exchange; that exchange ran on one
      connection only; the session's security context was bound to that connection by its own negotiator;
      and the result is the whole body. */
  lemma PostReturns(config: Config, s: State, env: PostEnv, message: bytes, maxBodySize: int) returns (k: nat, c: Conn)
    requires Inv(config, s)
    requires PostStep(config, s, env, message, maxBodySize).1.Ok?
    ensures var (s', result) := PostStep(config, s, env, message, maxBodySize);
            && Soap(k, s.calls, message, env.conns) in s'.trace
            && |env.conns| > 0 && AllOn(env.conns, c)
            && Bound(k, c) in s'.trace
            && env.reply.Some? && env.reply.value.status == 200 && maxBodySize > 0
            && BoundedBody(env.reply.value.body, maxBodySize) == (result.value, None)
    ensures Holds(EstablishStep(s.(calls := s.calls + 1), env.attempts), k, c)
  {
    var counted := s.(calls := s.calls + 1);
    var established := EstablishStep(counted, env.attempts);
    assert Inv(config, counted);
    var boot := EstablishKeeps(config, counted, env.attempts);
    k, c := established.adapter.value, established.connection.value;
    UnchangedIsOneConnection(Some(c), env.conns);
    var s' := PostStep(config, s, env, message, maxBodySize).0;
    assert s'.trace[|established.trace|] == Soap(k, s.calls, message, env.conns);
    assert s'.trace[..|established.trace|] == established.trace;
  }

  /** A run goes on from what its first operations left. */
  lemma RunExtends(config: Config, ops: seq<Op>, i: nat)
    requires i < |ops|
    ensures (var before := Run(config, START, ops[..i]);
             && Inv(config, before) && before.calls == |Posted(ops[..i])|
             && Step(config, before, ops[i]).0.trace <= Run(config, START, ops).trace)
    ensures LegalTrace(Run(config, START, ops).trace)
  {
    var before := Run(config, START, ops[..i]);
    StartInv(config);
    RunKeeps(config, START, ops[..i]);
    CallsOfRun(config, START, ops[..i]);
    StepKeeps(config, before, ops[i]);
    RunSplit(config, START, ops, i);
    RunKeeps(config, Step(config, before, ops[i]).0, ops[i + 1..]);
  }

  /** A returned response was exchanged on the connection of the context that `post` found or made, and every bootstrap
      exchange of that context, in the whole run, was on that same connection. */
  lemma {:induction false} RunBound(config: Config, ops: seq<Op>, i: nat) returns (k: nat, c: Conn)
    requires i < |ops| && ops[i].PostOp?
    requires Step(config, Run(config, START, ops[..i]), ops[i]).1.value.Ok?
    ensures var trace := Run(config, START, ops).trace;
            && Soap(k, |Posted(ops[..i])|, ops[i].message, ops[i].env.conns) in trace
            && |ops[i].env.conns| > 0 && AllOn(ops[i].env.conns, c)
            && Bound(k, c) in trace
            && BootstrappedOn(trace, k, c)
            && (exists conns :: Bootstrap(k, conns) in trace && c in conns)
    ensures var before := Run(config, START, ops[..i]);
            Holds(EstablishStep(before.(calls := before.calls + 1), ops[i].env.attempts), k, c)
  {
    var before := Run(config, START, ops[..i]);
    RunExtends(config, ops, i);
    k, c := PostReturns(config, before, ops[i].env, ops[i].message, ops[i].maxBodySize);
    var trace := Run(config, START, ops).trace;
    PrefixContains(Step(config, before, ops[i]).0.trace, trace);
    BoundMeansBootstrapped(trace, k, c);
  }

  lemma PrefixContains(a: seq<Event>, b: seq<Event>)
    requires a <= b
    ensures forall e :: e in a ==> e in b
  {
    forall e | e in a ensures e in b {
      var i :| 0 <= i < |a| && a[i] == e;
      assert b[i] == e;
    }
  }

  lemma {:induction false} CallsOfRun(config: Config, s: State, ops: seq<Op>)
    requires Inv(config, s)
    ensures Run(config, s, ops).calls == s.calls + |Posted(ops)|
    decreases |ops|
  {
    if |ops| > 0 {
      StepKeeps(config, s, ops[0]);
      CallsOfRun(config, Step(config, s, ops[0]).0, ops[1..]);
      assert ops == [ops[0]] + ops[1..];
      PostedSplit(ops[0], ops[1..]);
    }
  }

  lemma {:induction false} RunSplit(config: Config, s: State, ops: seq<Op>, i: nat)
    requires Valid(s) && i < |ops|
    ensures Run(config, s, ops) == Run(config, Step(config, Run(config, s, ops[..i]), ops[i]).0, ops[i + 1..])
    decreases i
  {
    if i > 0 {
      var next := Step(config, s, ops[0]).0;
      RunSplit(config, next, ops[1..], i - 1);
      assert ops[1..][..i - 1] == ops[..i][1..];
      assert ops[1..][i - 1] == ops[i];
      assert ops[1..][i..] == ops[i + 1..];
    }
  }

  // ----- closing -----

  /** After `close`, no operation changes anything but the call count: every later call fails and sends nothing. */
  lemma ClosedIsAbsorbing(config: Config, s: State, ops: seq<Op>, env: PostEnv, message: bytes, maxBodySize: int)
    requires Inv(config, s)
    ensures var closed := CloseStep(config, s);
            var later := Run(config, closed, ops);
            && later.phase == Closed && later.trace == closed.trace
            && PostStep(config, later, env, message, maxBodySize).1 == Err("closed")
            && CloseStep(config, later) == later
  {
    CloseKeeps(config, s);
    RunKeeps(config, CloseStep(config, s), ops);
  }

  // ----- the protection policy -----

  /** A session that requires encryption never sends a SOAP body: every request it makes has an empty body. */
  lemma ProtectedRunSendsNoBody(config: Config, ops: seq<Op>)
    requires config.requireEncryption
    ensures NoSoap(Run(config, START, ops).trace)
  {
    StartInv(config);
    RunKeeps(config, START, ops);
  }
}
