/** kerberos_session.go, validateKerberosConfiguration: which configurations make a session, and whether it may send a
    SOAP body in the clear. */
module KerberosConfig {

  import opened Wrappers
  import opened Bytes
  import opened KerberosSession
  import opened KerberosSessionProofs

  const AUTO: bytes := "auto"
  const ALWAYS: bytes := "always"
  const NEVER: bytes := "never"

  datatype Owner = Owner(hostname: bytes, port: int, proto: bytes, spn: bytes, messageEncryption: bytes)

  datatype Endpoint = Endpoint(host: bytes, port: int, https: bool)

  datatype Accepted = Accepted(spn: bytes, requireEncryption: bool)

  /** strings.EqualFold on two arbitrary strings. */
  type Fold = (bytes, bytes) -> bool

  function Scheme(endpoint: Endpoint): (scheme: bytes)
    ensures endpoint.https ==> scheme == "https"
    ensures !endpoint.https ==> scheme == "http"
  {
    if endpoint.https then "https" else "http"
  }

  const SERVICE: bytes := "HTTP/"

  /** The service name, which the endpoint gives by default. */
  function ServiceName(owner: Owner, endpoint: Endpoint): (spn: bytes)
    ensures |spn| > 0
  {
    if |owner.spn| == 0 then SERVICE + endpoint.host else owner.spn
  }

  /** No rune outside ASCII has a lower case among the letters of the modes, so ASCII
      lower-casing decides every mode. */
  function Mode(owner: Owner): bytes {
    var mode := ToLower(TrimSpace(owner.messageEncryption));
    if |mode| == 0 then AUTO else mode
  }

  predicate Supported(mode: bytes) {
    mode == AUTO || mode == ALWAYS || mode == NEVER
  }

  /** The mode is `always`, or it is `auto` or blank and the endpoint is not TLS, in any letter case and padding. */
  predicate Protected(owner: Owner, endpoint: Endpoint) {
    var mode := ToLower(TrimSpace(owner.messageEncryption));
    mode == ALWAYS || ((mode == AUTO || |mode| == 0) && !endpoint.https)
  }

  /** Accepts a configuration, and says what service name it asks a ticket for and whether it requires encryption. */
  function Validate(fold: Fold, owner: Owner, endpoint: Option<Endpoint>): (r: Result<Accepted>)
    ensures r.Ok? <==>
      && endpoint.Some?
      && 1 <= endpoint.value.port <= 65535
      && |TrimSpace(endpoint.value.host)| > 0
      && (|owner.hostname| == 0 || fold(owner.hostname, endpoint.value.host))
      && owner.port in {0, endpoint.value.port}
      && (|owner.proto| == 0 || EqualFold(owner.proto, Scheme(endpoint.value)))
      && Supported(Mode(owner))
    ensures r.Ok? ==> r.value.spn == if |owner.spn| == 0 then SERVICE + endpoint.value.host else owner.spn
    ensures r.Ok? ==> (r.value.requireEncryption <==> Protected(owner, endpoint.value))
  {
    if endpoint.None? || |TrimSpace(endpoint.value.host)| == 0
       || endpoint.value.port < 1 || endpoint.value.port > 65535 then
      Err("endpoint")
    else if |owner.hostname| > 0 && !fold(owner.hostname, endpoint.value.host) then Err("hostname")
    else if owner.port != 0 && owner.port != endpoint.value.port then Err("port")
    else if |owner.proto| > 0 && !EqualFold(owner.proto, Scheme(endpoint.value)) then Err("proto")
    else if !Supported(Mode(owner)) then Err("mode")
    else
      var required := Mode(owner) == ALWAYS || (Mode(owner) == AUTO && !endpoint.value.https);
      Ok(Accepted(ServiceName(owner, endpoint.value), required))
  }

  /** The mode in any letter case, between any ASCII padding, is recognised. */
  lemma ModeSpelling(owner: Owner, left: bytes, word: bytes, right: bytes, mode: bytes)
    requires owner.messageEncryption == left + word + right && Blank(left) && Blank(right)
    requires mode in {AUTO, ALWAYS, NEVER} && |word| == |mode|
    requires forall i :: 0 <= i < |mode| ==> SameLetter(word[i], mode[i])
    ensures Mode(owner) == mode
  {
    ModesAreLetters();
    LettersAreNoSpace(word, mode);
    TrimPadding(left, word, right);
    assert ToLower(word) == mode;
  }

  lemma ModesAreLetters()
    ensures forall mode, i :: mode in {AUTO, ALWAYS, NEVER} && 0 <= i < |mode| ==> 'a' <= mode[i] <= 'z'
    ensures |AUTO| > 0 && |ALWAYS| > 0 && |NEVER| > 0
  {
  }

  lemma LettersAreNoSpace(word: bytes, mode: bytes)
    requires |word| == |mode| && forall i :: 0 <= i < |mode| ==> 'a' <= mode[i] <= 'z' && SameLetter(word[i], mode[i])
    ensures forall i :: 0 <= i < |word| ==> word[i] as int < 128 && !AsciiSpace(word[i]) && Lower(word[i]) == mode[i]
  {
    forall i | 0 <= i < |word| ensures Lower(word[i]) == mode[i] {
      LowerIff(word[i], mode[i]);
    }
  }

  /** What the spellings of a mode ask for: `always` protects, `never` does not, and `auto` and a blank text protect
      exactly an endpoint without TLS. */
  lemma ProtectedSpelling(owner: Owner, endpoint: Endpoint, left: bytes, word: bytes, right: bytes, mode: bytes)
    requires owner.messageEncryption == left + word + right && Blank(left) && Blank(right)
    requires (mode in {AUTO, ALWAYS, NEVER} && |word| == |mode|
              && forall i :: 0 <= i < |mode| ==> SameLetter(word[i], mode[i]))
             || (mode == [] && word == [])
    ensures Protected(owner, endpoint) <==> mode == "always" || (mode in {"auto", []} && !endpoint.https)
    ensures Supported(Mode(owner))
  {
    if mode == [] {
      assert Blank(left + word + right);
      TrimBlank(owner.messageEncryption);
    } else {
      ModeSpelling(owner, left, word, right, mode);
    }
    ModesDiffer();
  }

  lemma ModesDiffer()
    ensures AUTO != ALWAYS && AUTO != NEVER && ALWAYS != NEVER
    ensures |AUTO| > 0 && |ALWAYS| > 0 && |NEVER| > 0
  {
  }

  /** A server that answers everything on one connection. */
  const WILLING := PostEnv(round => Attempt(true, [[0]], Some(Response(200, true, None)), true), true, [0], None)

  /** Without the encryption requirement, a willing server receives any message in the clear. */
  lemma PlaintextIsSent(config: Config, message: bytes)
    requires !config.requireEncryption
    ensures Soap(0, 0, message, [0]) in Run(config, START, [PostOp(WILLING, message, 1)]).trace
  {
    var ops := [PostOp(WILLING, message, 1)];
    var started := START.(calls := 1);
    var trips: seq<seq<Conn>> := [[0]];
    assert Performed(trips, MAX_BOOTSTRAP_EXCHANGES) == trips;
    assert trips[1..] == [] && FlattenConns(trips) == [0];
    assert Track(NO_CONNECTION, [0]) == GotConn(NO_CONNECTION, 0);
    assert Judge(WILLING.attempts(0), Track(NO_CONNECTION, [0])) == KerberosSession.Verdict.Accept(0);
    var established := EstablishStep(started, WILLING.attempts);
    assert established.phase == Established && established.adapter == Some(0);
    assert Soap(0, 0, message, [0]) in PostPlaintext(established, 0, WILLING, message, 1).0.trace;
    assert ops[1..] == [];
    assert Run(config, START, ops) == Step(config, START, ops[0]).0;
  }

  /** The protection policy over whole runs: an accepted configuration keeps every SOAP body off the wire, in every
      sequence of posts and closes, exactly when it asks for protection. */
  lemma ProtectionPolicy(fold: Fold, owner: Owner, endpoint: Endpoint, hasClient: bool)
    requires Validate(fold, owner, Some(endpoint)).Ok?
    ensures (var config := Config(Validate(fold, owner, Some(endpoint)).value.requireEncryption, hasClient);
             Protected(owner, endpoint) <==> forall ops: seq<Op> :: NoSoap(Run(config, START, ops).trace))
  {
    var config := Config(Validate(fold, owner, Some(endpoint)).value.requireEncryption, hasClient);
    if config.requireEncryption {
      forall ops: seq<Op> ensures NoSoap(Run(config, START, ops).trace) {
        ProtectedRunSendsNoBody(config, ops);
      }
    } else {
      PlaintextIsSent(config, []);
      assert !NoSoap(Run(config, START, [PostOp(WILLING, [], 1)]).trace);
    }
  }
}
