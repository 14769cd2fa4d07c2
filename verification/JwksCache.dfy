/** The JWKS cache and the JWT validation path of `KeycloakAuthService`: two mutable
    fields, a TTL test, and one forced refresh after a failed signature check.

    The outside world is an `Env`: the reply to the n-th GET of the service's life and the
    result of its n-th reading of the clock.  Every statement below holds for all such
    environments, so the identity provider may fail or change its keys at any time. */
module JwksCache {
  import opened Wrappers

  datatype Key = Key(id: nat)
  datatype Claims = Claims(id: nat)

  // One element of the "keys" list; `publicKey` is None when no RSA key can be built from it.
  datatype Candidate = NotAnObject | Jwk(kid: Option<string>, publicKey: Option<Key>)

  // The JSON object served by the provider; its "keys" member may not be a list.
  datatype KeySet = NoKeyList | KeyList(entries: seq<Candidate>)

  // What one GET gives: an exception of the HTTP client, or a status and an optional JSON object.
  datatype Reply = Raised | Replied(status: int, body: Option<KeySet>)

  datatype Env = Env(replies: nat -> Reply, clock: nat -> real)

  datatype Header = Header(alg: Option<string>, kid: Option<string>)
  datatype Token = Unreadable | Token(header: Header, content: nat)

  // The JWT library: does the key verify the signature, and what does it say of the claims?
  datatype Verdict = Good(claims: Claims) | NotAMapping | BadClaims
  datatype Verifier = Verifier(signs: (Token, Key) -> bool, verdict: Token -> Verdict)

  datatype Reason =
    | MalformedToken
    | UnsupportedAlgorithm
    | MissingVerificationKey
    | MissingKid
    | JwksUnavailable
    | JwksInvalid
    | NoKeyForKid
    | InvalidKey
    | BadSignature
    | InvalidClaims

  datatype Failure = Rejected(reason: Reason) | TransportError

  datatype Config = Config(ttl: nat, allowed: seq<string>, verificationKey: Option<Key>)

  // One GET: whether it was a forced refresh, its reply, and the load time if it was stored.
  datatype Get = Get(forced: bool, reply: Reply, storedAt: Option<real>)

  /** The two cache fields, with the GETs made so far, the number of clock readings, and the
      keys a signature was checked against. */
  datatype State = State(
    cache: Option<KeySet>,
    loadedAt: Option<real>,
    history: seq<Get>,
    ticks: nat,
    tried: seq<Key>)

  const FRESH := State(None, None, [], 0, [])

  predicate Usable(reply: Reply) {
    reply.Replied? && 200 <= reply.status < 300 && reply.body.Some?
  }

  // ----- The key set -----

  predicate Matches(candidate: Candidate, kid: string) {
    candidate.Jwk? && candidate.kid == Some(kid)
  }

  function FirstForKid(entries: seq<Candidate>, kid: string): (r: Option<Candidate>)
    ensures r.Some? ==> Matches(r.value, kid) && r.value in entries
    ensures r.None? ==> forall i :: 0 <= i < |entries| ==> !Matches(entries[i], kid)
  {
    if entries == [] then None
    else if Matches(entries[0], kid) then Some(entries[0])
    else FirstForKid(entries[1..], kid)
  }

  lemma {:induction false} FirstForKidIsFirst(entries: seq<Candidate>, kid: string, i: nat)
    requires i < |entries| && Matches(entries[i], kid)
    requires forall j :: 0 <= j < i ==> !Matches(entries[j], kid)
    ensures FirstForKid(entries, kid) == Some(entries[i])
  {
    if i > 0 {
      FirstForKidIsFirst(entries[1..], kid, i - 1);
    }
  }

  function Find(jwks: KeySet, kid: string): Result<Candidate, Failure> {
    match jwks
    case NoKeyList => Failure(Rejected(JwksInvalid))
    case KeyList(entries) =>
      match FirstForKid(entries, kid)
      case None => Failure(Rejected(NoKeyForKid))
      case Some(jwk) => Success(jwk)
  }

  function Build(jwk: Candidate): Result<Key, Failure> {
    if jwk.Jwk? && jwk.publicKey.Some? then Success(jwk.publicKey.value)
    else Failure(Rejected(InvalidKey))
  }

  // The key an RS256 token with this kid is checked against, given a key set.
  function KeyFor(jwks: KeySet, kid: string): Result<Key, Failure> {
    var jwk :- Find(jwks, kid);
    Build(jwk)
  }

  function Decode(verifier: Verifier, token: Token, key: Key): Result<Claims, Failure> {
    if !verifier.signs(token, key) then Failure(Rejected(BadSignature))
    else match verifier.verdict(token)
         case Good(claims) => Success(claims)
         case NotAMapping => Failure(Rejected(MalformedToken))
         case BadClaims => Failure(Rejected(InvalidClaims))
  }

  // ----- Loading the key set -----

  // An ordinary lookup that finds a cache tests its age, unless there is nothing to test.
  predicate TestsAge(cfg: Config, s: State) {
    s.cache.Some? && s.loadedAt.Some? && cfg.ttl != 0
  }

  // The cache is what an ordinary lookup made now would return.
  predicate Live(cfg: Config, env: Env, s: State) {
    && s.cache.Some?
    && (TestsAge(cfg, s) ==> env.clock(s.ticks) - s.loadedAt.value < cfg.ttl as real)
  }

  function Fetched(env: Env, s: State, forced: bool): (State, Result<KeySet, Failure>) {
    var reply := env.replies(|s.history|);
    if Usable(reply) then
      var now := env.clock(s.ticks);
      (State(Some(reply.body.value), Some(now), s.history + [Get(forced, reply, Some(now))], s.ticks + 1, s.tried),
       Success(reply.body.value))
    else
      (s.(history := s.history + [Get(forced, reply, None)]),
       Failure(if reply.Raised? then TransportError else Rejected(JwksUnavailable)))
  }

  function Loaded(cfg: Config, env: Env, s: State, forced: bool): (State, Result<KeySet, Failure>) {
    var s' := if !forced && TestsAge(cfg, s) then s.(ticks := s.ticks + 1) else s;
    if !forced && Live(cfg, env, s) then (s', Success(s.cache.value))
    else Fetched(env, s', forced)
  }

  // ----- Choosing the key -----

  predicate HasKid(header: Header) {
    header.kid.Some? && header.kid.value != ""
  }

  function Resolved(cfg: Config, env: Env, s: State, header: Header): (State, Result<Key, Failure>) {
    if header.alg == Some("HS256") then
      (s, if cfg.verificationKey.None? then Failure(Rejected(MissingVerificationKey))
          else Success(cfg.verificationKey.value))
    else if header.alg == Some("RS256") then
      if !HasKid(header) then (s, Failure(Rejected(MissingKid)))
      else
        var (s', jwks) := Loaded(cfg, env, s, false);
        (s', if jwks.Failure? then Failure(jwks.error) else KeyFor(jwks.value, header.kid.value))
    else
      (s, Failure(Rejected(UnsupportedAlgorithm)))
  }

  // The key after a forced refresh; Success(None) is the answer "there is nothing to refresh".
  function Refreshed(cfg: Config, env: Env, s: State, header: Header): (State, Result<Option<Key>, Failure>) {
    if !HasKid(header) || s.cache.None? then (s, Success(None))
    else
      var (s', jwks) := Loaded(cfg, env, s, true);
      if jwks.Failure? then (s', Failure(jwks.error))
      else
        var key := KeyFor(jwks.value, header.kid.value);
        (s', if key.Failure? then Failure(key.error) else Success(Some(key.value)))
  }

  // ----- Validating a token -----

  function Validated(cfg: Config, env: Env, verifier: Verifier, s: State, token: Token)
    : (State, Result<Claims, Failure>)
  {
    if token.Unreadable? then (s, Failure(Rejected(MalformedToken)))
    else if token.header.alg.None? || token.header.alg.value !in cfg.allowed then
      (s, Failure(Rejected(UnsupportedAlgorithm)))
    else
      var (s1, key) := Resolved(cfg, env, s, token.header);
      if key.Failure? then (s1, Failure(key.error))
      else
        var s2 := s1.(tried := s1.tried + [key.value]);
        var first := Decode(verifier, token, key.value);
        if first != Failure(Rejected(BadSignature)) then (s2, first)
        else if token.header.alg.value != "RS256" || s2.cache.None? then (s2, first)
        else
          var (s3, refreshed) := Refreshed(cfg, env, s2, token.header);
          if refreshed.Failure? then (s3, Failure(refreshed.error))
          else if refreshed.value.None? then (s3, first)
          else
            (s3.(tried := s3.tried + [refreshed.value.value]),
             Decode(verifier, token, refreshed.value.value))
  }

  // ----- The service object -----

  class KeycloakAuthService {
    const cfg: Config
    const env: Env
    const verifier: Verifier

    var jwksCache: Option<KeySet>
    var jwksCacheLoadedAt: Option<real>

    // The record kept by the HTTP client, the clock and the JWT library.
    var history: seq<Get>
    var ticks: nat
    var tried: seq<Key>

    function Abs(): State
      reads this
    {
      State(jwksCache, jwksCacheLoadedAt, history, ticks, tried)
    }

    constructor (ttl: nat, verificationKey: Option<Key>, allowed: Option<seq<string>>, env: Env, verifier: Verifier)
      ensures Abs() == FRESH
      ensures this.env == env && this.verifier == verifier
      ensures cfg.ttl == ttl && cfg.verificationKey == verificationKey
      ensures cfg.allowed == if allowed.None? || allowed.value == [] then ["HS256"] else allowed.value
    {
      cfg := Config(ttl, if allowed.None? || allowed.value == [] then ["HS256"] else allowed.value, verificationKey);
      this.env := env;
      this.verifier := verifier;
      jwksCache, jwksCacheLoadedAt := None, None;
      history, ticks, tried := [], 0, [];
    }

    method CurrentTime() returns (now: real)
      modifies this`ticks
      ensures now == env.clock(old(ticks)) && ticks == old(ticks) + 1
    {
      now := env.clock(ticks);
      ticks := ticks + 1;
    }

    method HttpGet(forced: bool) returns (reply: Reply)
      modifies this`history
      ensures reply == env.replies(|old(history)|)
      ensures history == old(history) + [Get(forced, reply, None)]
    {
      reply := env.replies(|history|);
      history := history + [Get(forced, reply, None)];
    }

    method DecodeToken(token: Token, key: Key) returns (r: Result<Claims, Failure>)
      modifies this`tried
      ensures tried == old(tried) + [key] && r == Decode(verifier, token, key)
    {
      tried := tried + [key];
      r := Decode(verifier, token, key);
    }

    method FindJwk(jwks: KeySet, kid: string) returns (r: Result<Candidate, Failure>)
      ensures r == Find(jwks, kid)
    {
      if jwks.NoKeyList? {
        return Failure(Rejected(JwksInvalid));
      }
      for i := 0 to |jwks.entries|
        invariant forall j :: 0 <= j < i ==> !Matches(jwks.entries[j], kid)
      {
        if Matches(jwks.entries[i], kid) {
          FirstForKidIsFirst(jwks.entries, kid, i);
          return Success(jwks.entries[i]);
        }
      }
      return Failure(Rejected(NoKeyForKid));
    }

    method GetJwks(forceRefresh: bool) returns (r: Result<KeySet, Failure>)
      modifies this
      ensures (Abs(), r) == Loaded(cfg, env, old(Abs()), forceRefresh)
    {
      if !forceRefresh && jwksCache.Some? {
        if jwksCacheLoadedAt.None? {
          return Success(jwksCache.value);
        }
        if cfg.ttl == 0 {
          return Success(jwksCache.value);
        }
        var now := CurrentTime();
        if now - jwksCacheLoadedAt.value < cfg.ttl as real {
          return Success(jwksCache.value);
        }
      }
      var reply := HttpGet(forceRefresh);
      if reply.Raised? {
        return Failure(TransportError);
      }
      if reply.status < 200 || reply.status >= 300 || reply.body.None? {
        return Failure(Rejected(JwksUnavailable));
      }
      jwksCache := Some(reply.body.value);
      var now := CurrentTime();
      jwksCacheLoadedAt := Some(now);
      history := history[..|history| - 1] + [Get(forceRefresh, reply, Some(now))];
      return Success(reply.body.value);
    }

    method ResolveVerificationKey(header: Header) returns (r: Result<Key, Failure>)
      modifies this
      ensures (Abs(), r) == Resolved(cfg, env, old(Abs()), header)
    {
      if header.alg == Some("HS256") {
        if cfg.verificationKey.None? {
          return Failure(Rejected(MissingVerificationKey));
        }
        return Success(cfg.verificationKey.value);
      }
      if header.alg == Some("RS256") {
        if !HasKid(header) {
          return Failure(Rejected(MissingKid));
        }
        var jwks :- GetJwks(false);
        var jwk :- FindJwk(jwks, header.kid.value);
        return Build(jwk);
      }
      return Failure(Rejected(UnsupportedAlgorithm));
    }

    method RefreshJwkForHeader(header: Header) returns (r: Result<Option<Candidate>, Failure>)
      modifies this
      ensures if !HasKid(header) || old(jwksCache).None? then Abs() == old(Abs()) && r == Success(None)
              else var (s, jwks) := Loaded(cfg, env, old(Abs()), true);
                   && Abs() == s
                   && (jwks.Failure? ==> r == Failure(jwks.error))
                   && (jwks.Success? ==>
                         var jwk := Find(jwks.value, header.kid.value);
                         r == if jwk.Failure? then Failure(jwk.error) else Success(Some(jwk.value)))
    {
      if !HasKid(header) || jwksCache.None? {
        return Success(None);
      }
      var jwks :- GetJwks(true);
      var jwk :- FindJwk(jwks, header.kid.value);
      return Success(Some(jwk));
    }

    method RefreshVerificationKey(header: Header) returns (r: Result<Option<Key>, Failure>)
      modifies this
      ensures (Abs(), r) == Refreshed(cfg, env, old(Abs()), header)
    {
      var jwk :- RefreshJwkForHeader(header);
      if jwk.None? {
        return Success(None);
      }
      var key :- Build(jwk.value);
      return Success(Some(key));
    }

    method DecodeAndValidateJwt(token: Token) returns (r: Result<Claims, Failure>)
      modifies this
      ensures (Abs(), r) == Validated(cfg, env, verifier, old(Abs()), token)
    {
      if token.Unreadable? {
        return Failure(Rejected(MalformedToken));
      }
      var algorithm := token.header.alg;
      if algorithm.None? || algorithm.value !in cfg.allowed {
        return Failure(Rejected(UnsupportedAlgorithm));
      }
      var key :- ResolveVerificationKey(token.header);
      r := DecodeToken(token, key);
      if r == Failure(Rejected(BadSignature)) && algorithm.value == "RS256" && jwksCache.Some? {
        var refreshed :- RefreshVerificationKey(token.header);
        if refreshed.Some? {
          r := DecodeToken(token, refreshed.value);
        }
      }
    }
  }
}
