/** What the JWKS cache guarantees: validation is one or two rounds of the simple
    validator "take a key set, find the kid, verify"; when exactly it agrees with that
    validator; what every call costs; and what every run keeps. */
module JwksTheorems {
  import opened Wrappers
  import opened JwksCache

  // ----- The simple validator, and validation as rounds of it -----

  /** The reference: no cache, no clock, no second attempt.  The key set is given. */
  function Cacheless(cfg: Config, verifier: Verifier, token: Token, jwks: KeySet): Result<Claims, Failure> {
    if token.Unreadable? then Failure(Rejected(MalformedToken))
    else if token.header.alg.None? || token.header.alg.value !in cfg.allowed then
      Failure(Rejected(UnsupportedAlgorithm))
    else if !HasKid(token.header) then Failure(Rejected(MissingKid))
    else
      var key :- KeyFor(jwks, token.header.kid.value);
      Decode(verifier, token, key)
  }

  predicate IsRs256(token: Token) {
    token.Token? && token.header.alg == Some("RS256")
  }

  // A token that gets as far as a key set.
  predicate NeedsKeySet(cfg: Config, token: Token) {
    IsRs256(token) && "RS256" in cfg.allowed && HasKid(token.header)
  }

  // What a GET with this reply contributes: a key set, or the failure that ends the call.
  function Offered(reply: Reply): Result<KeySet, Failure> {
    if Usable(reply) then Success(reply.body.value)
    else Failure(if reply.Raised? then TransportError else Rejected(JwksUnavailable))
  }

  // The key set of the first round: the live cache, or else the answer to a GET.
  function FirstKeySet(cfg: Config, env: Env, s: State): Result<KeySet, Failure> {
    if Live(cfg, env, s) then Success(s.cache.value) else Offered(env.replies(|s.history|))
  }

  // The reply a forced refresh would get.
  function SecondKeySet(cfg: Config, env: Env, s: State): Result<KeySet, Failure> {
    Offered(env.replies(|s.history| + if Live(cfg, env, s) then 0 else 1))
  }

  function Verify(cfg: Config, verifier: Verifier, token: Token, jwks: Result<KeySet, Failure>)
    : Result<Claims, Failure>
  {
    var keys :- jwks;
    Cacheless(cfg, verifier, token, keys)
  }

  function TwoRounds(cfg: Config, env: Env, verifier: Verifier, s: State, token: Token): Result<Claims, Failure> {
    var first := Verify(cfg, verifier, token, FirstKeySet(cfg, env, s));
    if first == Failure(Rejected(BadSignature))
    then Verify(cfg, verifier, token, SecondKeySet(cfg, env, s))
    else first
  }

  /** Validating with the cache is the simple validator on the first key set and, exactly when
      that finds a bad signature, the simple validator once more on a freshly fetched one. */
  lemma ValidationIsTwoRounds(cfg: Config, env: Env, verifier: Verifier, s: State, token: Token)
    requires NeedsKeySet(cfg, token)
    ensures Validated(cfg, env, verifier, s, token).1 == TwoRounds(cfg, env, verifier, s, token)
  {
    var (s1, jwks) := Loaded(cfg, env, s, false);
    assert jwks == FirstKeySet(cfg, env, s);
    if jwks.Success? {
      assert s1.cache.Some?;
      var (_, again) := Loaded(cfg, env, s1, true);
      assert again == SecondKeySet(cfg, env, s);
    }
  }

  // ----- When the cache agrees with the simple validator -----

  predicate Serves(env: Env, s: State, jwks: KeySet) {
    && Offered(env.replies(|s.history|)) == Success(jwks)
    && Offered(env.replies(|s.history| + 1)) == Success(jwks)
  }

  /** With a provider that answers with its current key set, an empty or expired cache gives the
      simple validator's result, errors included. */
  lemma ExpiredCacheRefines(cfg: Config, env: Env, verifier: Verifier, s: State, token: Token, jwks: KeySet)
    requires NeedsKeySet(cfg, token) && Serves(env, s, jwks) && !Live(cfg, env, s)
    ensures Validated(cfg, env, verifier, s, token).1 == Cacheless(cfg, verifier, token, jwks)
  {
    ValidationIsTwoRounds(cfg, env, verifier, s, token);
  }

  predicate SameVerdict(a: Result<Claims, Failure>, b: Result<Claims, Failure>) {
    a == b || (a.Failure? && b.Failure?)
  }

  /** A live cache may keep a token out, or let it in, against the current key set.  These are
      the only two ways. */
  lemma LiveCacheDiffersExactlyWhen(cfg: Config, env: Env, verifier: Verifier, s: State, token: Token, jwks: KeySet)
    requires NeedsKeySet(cfg, token) && Serves(env, s, jwks) && Live(cfg, env, s)
    ensures var cached := KeyFor(s.cache.value, token.header.kid.value);
            var current := Cacheless(cfg, verifier, token, jwks);
            !SameVerdict(Validated(cfg, env, verifier, s, token).1, current)
            <==>
            ((cached.Failure? && current.Success?)
             || (cached.Success? && Decode(verifier, token, cached.value).Success? && current.Failure?))
  {
    ValidationIsTwoRounds(cfg, env, verifier, s, token);
  }

  /** If the cache is empty or expired, or holds a buildable key for the kid, a token that the simple
      validator accepts against the current key set is accepted with the same claims. */
  lemma CacheRefinesCacheless(cfg: Config, env: Env, verifier: Verifier, s: State, token: Token, jwks: KeySet)
    requires NeedsKeySet(cfg, token) && Serves(env, s, jwks)
    requires !Live(cfg, env, s) || KeyFor(s.cache.value, token.header.kid.value).Success?
    requires Cacheless(cfg, verifier, token, jwks).Success?
    ensures Validated(cfg, env, verifier, s, token).1 == Cacheless(cfg, verifier, token, jwks)
  {
    ValidationIsTwoRounds(cfg, env, verifier, s, token);
  }

  // The same clock, with a provider that always answers with this key set.
  function Serving(env: Env, jwks: KeySet): Env {
    Env((n: nat) => Replied(200, Some(jwks)), env.clock)
  }

  // Read off the cache and the token alone: the cache cannot change the verdict.
  ghost predicate Transparent(cfg: Config, env: Env, verifier: Verifier, s: State, token: Token)
    requires NeedsKeySet(cfg, token)
  {
    || !Live(cfg, env, s)
    || !verifier.verdict(token).Good?
    || match KeyFor(s.cache.value, token.header.kid.value)
       case Success(key) => !verifier.signs(token, key)
       case Failure(_) => forall key :: !verifier.signs(token, key)
  }

  ghost predicate AgreesOn(cfg: Config, env: Env, verifier: Verifier, s: State, token: Token, jwks: KeySet) {
    SameVerdict(Validated(cfg, Serving(env, jwks), verifier, s, token).1, Cacheless(cfg, verifier, token, jwks))
  }

  /** The cache agrees with the simple validator whatever the provider's key set is, if and only
      if the cache is transparent to the token. */
  lemma AgreesForEveryKeySetIff(cfg: Config, env: Env, verifier: Verifier, s: State, token: Token)
    requires NeedsKeySet(cfg, token)
    ensures (forall jwks :: AgreesOn(cfg, env, verifier, s, token, jwks)) <==> Transparent(cfg, env, verifier, s, token)
  {
    var kid := token.header.kid.value;
    forall jwks
      ensures Live(cfg, env, s) ==>
                var cached := KeyFor(s.cache.value, kid);
                var current := Cacheless(cfg, verifier, token, jwks);
                !AgreesOn(cfg, env, verifier, s, token, jwks)
                <==>
                ((cached.Failure? && current.Success?)
                 || (cached.Success? && Decode(verifier, token, cached.value).Success? && current.Failure?))
      ensures !Live(cfg, env, s) ==> AgreesOn(cfg, env, verifier, s, token, jwks)
    {
      assert Live(cfg, Serving(env, jwks), s) == Live(cfg, env, s);
      assert Serves(Serving(env, jwks), s, jwks);
      if Live(cfg, env, s) {
        LiveCacheDiffersExactlyWhen(cfg, Serving(env, jwks), verifier, s, token, jwks);
      } else {
        ExpiredCacheRefines(cfg, Serving(env, jwks), verifier, s, token, jwks);
      }
    }
    if !Transparent(cfg, env, verifier, s, token) {
      match KeyFor(s.cache.value, kid)
      case Success(_) =>
        assert Cacheless(cfg, verifier, token, KeyList([])).Failure?;
        assert !AgreesOn(cfg, env, verifier, s, token, KeyList([]));
      case Failure(_) =>
        var key :| verifier.signs(token, key);
        var only := Jwk(Some(kid), Some(key));
        FirstForKidIsFirst([only], kid, 0);
        assert Cacheless(cfg, verifier, token, KeyList([only])).Success?;
        assert !AgreesOn(cfg, env, verifier, s, token, KeyList([only]));
    }
  }

  // ----- What one call costs, and where an accepted token's key comes from -----

  function Forced(history: seq<Get>): nat {
    if history == [] then 0 else Forced(history[..|history| - 1]) + if history[|history| - 1].forced then 1 else 0
  }

  lemma ForcedAppend(history: seq<Get>, last: Get)
    ensures Forced(history + [last]) == Forced(history) + if last.forced then 1 else 0
  {
    assert (history + [last])[..|history|] == history;
  }

  predicate Retried(cfg: Config, env: Env, verifier: Verifier, s: State, token: Token) {
    Verify(cfg, verifier, token, FirstKeySet(cfg, env, s)) == Failure(Rejected(BadSignature))
  }

  // The cache side of a validation: one ordinary load, and a forced one after a bad signature.
  lemma ValidationLoads(cfg: Config, env: Env, verifier: Verifier, s: State, token: Token)
    requires NeedsKeySet(cfg, token)
    ensures var s' := Validated(cfg, env, verifier, s, token).0;
            var s1 := Loaded(cfg, env, s, false).0;
            && s'.(tried := s.tried)
            == (if Retried(cfg, env, verifier, s, token) then Loaded(cfg, env, s1, true).0 else s1)
            && s.tried <= s'.tried
            && |s'.tried| <= |s.tried| + (if Retried(cfg, env, verifier, s, token) then 2 else 1)
  {
    var (s1, jwks) := Loaded(cfg, env, s, false);
    assert jwks == FirstKeySet(cfg, env, s);
  }

  lemma LoadCost(cfg: Config, env: Env, s: State, forced: bool)
    ensures var s' := Loaded(cfg, env, s, forced).0;
            var gets := if !forced && Live(cfg, env, s) then 0 else 1;
            && s.history <= s'.history && |s'.history| == |s.history| + gets
            && Forced(s'.history) == Forced(s.history) + if forced then 1 else 0
  {
    var s' := Loaded(cfg, env, s, forced).0;
    if s'.history != s.history {
      ForcedAppend(s.history, s'.history[|s.history|]);
    }
  }

  /** The exact cost of validating: a GET unless the cache is live, and one forced GET more
      exactly when the first key did not verify the signature. */
  lemma CallCost(cfg: Config, env: Env, verifier: Verifier, s: State, token: Token)
    requires NeedsKeySet(cfg, token)
    ensures var s' := Validated(cfg, env, verifier, s, token).0;
            var retries := if Retried(cfg, env, verifier, s, token) then 1 else 0;
            && s.history <= s'.history && s.tried <= s'.tried
            && |s'.history| == |s.history| + (if Live(cfg, env, s) then 0 else 1) + retries
            && Forced(s'.history) == Forced(s.history) + retries
            && |s'.tried| <= |s.tried| + 1 + retries
  {
    ValidationLoads(cfg, env, verifier, s, token);
    LoadCost(cfg, env, s, false);
    LoadCost(cfg, env, Loaded(cfg, env, s, false).0, true);
  }

  /** Every other token, HS256 tokens among them, leaves the cache, the clock and the network alone;
      an HS256 token is decided by the configured key, tried at most once. */
  lemma OtherTokensLeaveCacheAlone(cfg: Config, env: Env, verifier: Verifier, s: State, token: Token)
    requires !NeedsKeySet(cfg, token)
    ensures var (s', r) := Validated(cfg, env, verifier, s, token);
            && s'.(tried := s.tried) == s
            && (r.Success? ==> token.Token? && token.header.alg == Some("HS256"))
            && (token.Token? && token.header.alg == Some("HS256") && "HS256" in cfg.allowed
                && cfg.verificationKey.Some? ==>
                  && r == Decode(verifier, token, cfg.verificationKey.value)
                  && s'.tried == s.tried + [cfg.verificationKey.value])
  {
  }

  /** On an accept, the accepting key is the one tried last, it is the first entry for the kid in
      the cache as the call leaves it, and that cache is the body just fetched or was live before. */
  lemma AcceptingKeyIsInTheCache(cfg: Config, env: Env, verifier: Verifier, s: State, token: Token)
    requires IsRs256(token) && Validated(cfg, env, verifier, s, token).1.Success?
    ensures var (s', r) := Validated(cfg, env, verifier, s, token);
            && s'.cache.Some? && HasKid(token.header) && s'.tried != []
            && KeyFor(s'.cache.value, token.header.kid.value) == Success(s'.tried[|s'.tried| - 1])
            && verifier.signs(token, s'.tried[|s'.tried| - 1])
            && Cacheless(cfg, verifier, token, s'.cache.value) == r
            && (|s'.history| > |s.history| ==> Offered(s'.history[|s'.history| - 1].reply) == Success(s'.cache.value))
            && (|s'.history| == |s.history| ==> Live(cfg, env, s) && s'.cache == s.cache)
  {
  }

  /** The branches for "no cache" and "nothing to refresh" after a failed RS256 signature are dead:
      a BadSignature result means a forced GET succeeded and its key failed too. */
  lemma BadSignatureMeansTwoKeysFailed(cfg: Config, env: Env, verifier: Verifier, s: State, token: Token)
    requires IsRs256(token)
    requires Validated(cfg, env, verifier, s, token).1 == Failure(Rejected(BadSignature))
    ensures var s' := Validated(cfg, env, verifier, s, token).0;
            && |s'.tried| == |s.tried| + 2
            && !verifier.signs(token, s'.tried[|s.tried|]) && !verifier.signs(token, s'.tried[|s.tried| + 1])
            && |s'.history| > |s.history| && s'.history[|s'.history| - 1].forced
            && Offered(s'.history[|s'.history| - 1].reply) == Success(s'.cache.value)
  {
  }

  // ----- Whole runs -----

  // A run of the service: tokens to validate, and direct lookups of the key set.
  datatype Op = Validate(token: Token) | Lookup(forced: bool)

  function After(cfg: Config, env: Env, verifier: Verifier, op: Op, s: State): State {
    match op
    case Validate(token) => Validated(cfg, env, verifier, s, token).0
    case Lookup(forced) => Loaded(cfg, env, s, forced).0
  }

  function Run(cfg: Config, env: Env, verifier: Verifier, ops: seq<Op>): State {
    if ops == [] then FRESH
    else After(cfg, env, verifier, ops[|ops| - 1], Run(cfg, env, verifier, ops[..|ops| - 1]))
  }

  ghost predicate Monotone(env: Env) {
    forall i: nat, j: nat :: i <= j ==> env.clock(i) <= env.clock(j)
  }

  // The last GET whose body was stored.
  function LastStored(history: seq<Get>): (r: Option<Get>)
    ensures r.Some? ==> r.value.storedAt.Some?
  {
    if history == [] then None
    else if history[|history| - 1].storedAt.Some? then Some(history[|history| - 1])
    else LastStored(history[..|history| - 1])
  }

  // The load times of the ordinary (not forced) fetches that were stored, oldest first.
  function OrdinaryLoads(history: seq<Get>): seq<real> {
    if history == [] then []
    else
      var last := history[|history| - 1];
      OrdinaryLoads(history[..|history| - 1])
      + if !last.forced && last.storedAt.Some? then [last.storedAt.value] else []
  }

  lemma HistoryAppend(history: seq<Get>, last: Get)
    ensures LastStored(history + [last]) == if last.storedAt.Some? then Some(last) else LastStored(history)
    ensures OrdinaryLoads(history + [last])
         == OrdinaryLoads(history) + if !last.forced && last.storedAt.Some? then [last.storedAt.value] else []
  {
    assert (history + [last])[..|history|] == history;
  }

  ghost predicate Spaced(ttl: nat, times: seq<real>) {
    if ttl == 0 then |times| <= 1
    else forall i, j :: 0 <= i < j < |times| && j == i + 1 ==> times[j] - times[i] >= ttl as real
  }

  // Every GET in the history got the provider's reply, and was stored if and only if it was usable.
  ghost predicate Faithful(env: Env, history: seq<Get>) {
    forall i :: 0 <= i < |history| ==>
      history[i].reply == env.replies(i) && (history[i].storedAt.Some? <==> Usable(history[i].reply))
  }

  // The cache fields are those of the last stored GET, and absent before the first one.
  predicate CacheIsLastStored(s: State) {
    match LastStored(s.history)
    case None => s.cache == None && s.loadedAt == None
    case Some(last) => Usable(last.reply) && s.cache == last.reply.body && s.loadedAt == last.storedAt
  }

  ghost predicate LoadsAreSpaced(cfg: Config, s: State) {
    var times := OrdinaryLoads(s.history);
    && Spaced(cfg.ttl, times)
    && (times != [] ==> s.loadedAt.Some? && times[|times| - 1] <= s.loadedAt.value)
  }

  /** What every reachable state satisfies. */
  ghost predicate Invariant(cfg: Config, env: Env, s: State) {
    && Faithful(env, s.history)
    && CacheIsLastStored(s)
    && (s.loadedAt.Some? ==> s.loadedAt.value <= env.clock(s.ticks))
    && LoadsAreSpaced(cfg, s)
  }

  lemma FetchKeepsSpacing(cfg: Config, env: Env, s: State, forced: bool)
    requires LoadsAreSpaced(cfg, s) && (s.loadedAt.Some? ==> s.loadedAt.value <= env.clock(s.ticks))
    requires !forced && s.loadedAt.Some? ==> cfg.ttl != 0 && env.clock(s.ticks) - s.loadedAt.value >= cfg.ttl as real
    ensures LoadsAreSpaced(cfg, Fetched(env, s, forced).0)
  {
    var reply, now := env.replies(|s.history|), env.clock(s.ticks);
    HistoryAppend(s.history, Get(forced, reply, if Usable(reply) then Some(now) else None));
    var times := OrdinaryLoads(s.history);
    if Usable(reply) && !forced {
      assert Spaced(cfg.ttl, times + [now]);
    }
  }

  lemma FetchKeepsFaithful(env: Env, s: State, forced: bool)
    requires Faithful(env, s.history)
    ensures Faithful(env, Fetched(env, s, forced).0.history)
  {
    var history := Fetched(env, s, forced).0.history;
    assert history[..|s.history|] == s.history;
  }

  lemma FetchStoresItsBody(env: Env, s: State, forced: bool)
    requires CacheIsLastStored(s)
    ensures CacheIsLastStored(Fetched(env, s, forced).0)
  {
    var reply := env.replies(|s.history|);
    HistoryAppend(s.history, Get(forced, reply, if Usable(reply) then Some(env.clock(s.ticks)) else None));
  }

  lemma FetchKeepsInvariant(cfg: Config, env: Env, s: State, forced: bool)
    requires Invariant(cfg, env, s) && env.clock(s.ticks) <= env.clock(s.ticks + 1)
    requires !forced && s.loadedAt.Some? ==> cfg.ttl != 0 && env.clock(s.ticks) - s.loadedAt.value >= cfg.ttl as real
    ensures Invariant(cfg, env, Fetched(env, s, forced).0)
  {
    hide Faithful, CacheIsLastStored, LoadsAreSpaced;
    FetchKeepsFaithful(env, s, forced);
    FetchStoresItsBody(env, s, forced);
    FetchKeepsSpacing(cfg, env, s, forced);
  }

  /** The cache and its load time are both absent or both set. */
  lemma CacheAndLoadTimeTogether(cfg: Config, env: Env, s: State)
    requires Invariant(cfg, env, s)
    ensures s.cache.Some? <==> s.loadedAt.Some?
  {
    hide Faithful, LoadsAreSpaced;
  }

  lemma TickKeepsInvariant(cfg: Config, env: Env, s: State)
    requires Invariant(cfg, env, s) && env.clock(s.ticks) <= env.clock(s.ticks + 1)
    ensures Invariant(cfg, env, s.(ticks := s.ticks + 1))
  {
  }

  lemma LoadKeepsInvariant(cfg: Config, env: Env, s: State, forced: bool)
    requires Monotone(env) && Invariant(cfg, env, s)
    ensures Invariant(cfg, env, Loaded(cfg, env, s, forced).0)
  {
    hide Invariant, Fetched;
    CacheAndLoadTimeTogether(cfg, env, s);
    var s' := if !forced && TestsAge(cfg, s) then s.(ticks := s.ticks + 1) else s;
    assert env.clock(s.ticks) <= env.clock(s'.ticks) <= env.clock(s'.ticks + 1);
    if s' != s {
      TickKeepsInvariant(cfg, env, s);
    }
    if forced || !Live(cfg, env, s) {
      FetchKeepsInvariant(cfg, env, s', forced);
    }
  }

  lemma TriedKeysAreFree(cfg: Config, env: Env, s: State, tried: seq<Key>)
    requires Invariant(cfg, env, s)
    ensures Invariant(cfg, env, s.(tried := tried))
  {
  }

  lemma ValidationKeepsInvariant(cfg: Config, env: Env, verifier: Verifier, token: Token, s: State)
    requires Monotone(env) && Invariant(cfg, env, s)
    ensures Invariant(cfg, env, Validated(cfg, env, verifier, s, token).0)
  {
    hide Invariant, Loaded;
    var s' := Validated(cfg, env, verifier, s, token).0;
    var base := s'.(tried := s.tried);
    assert Invariant(cfg, env, base) by {
      if NeedsKeySet(cfg, token) {
        ValidationLoads(cfg, env, verifier, s, token);
        var loaded := Loaded(cfg, env, s, false).0;
        LoadKeepsInvariant(cfg, env, s, false);
        if base != loaded {
          LoadKeepsInvariant(cfg, env, loaded, true);
        }
      } else {
        assert base == s;
      }
    }
    TriedKeysAreFree(cfg, env, base, s'.tried);
  }

  lemma OpKeepsInvariant(cfg: Config, env: Env, verifier: Verifier, op: Op, s: State)
    requires Monotone(env) && Invariant(cfg, env, s)
    ensures Invariant(cfg, env, After(cfg, env, verifier, op, s))
  {
    match op
    case Lookup(forced) => LoadKeepsInvariant(cfg, env, s, forced);
    case Validate(token) => ValidationKeepsInvariant(cfg, env, verifier, token, s);
  }

  /** Along every run the cache is the body of the last successful GET, with its load time;
      both are absent before the first one, and ordinary loads are at least a TTL apart. */
  lemma {:induction false} RunKeepsInvariant(cfg: Config, env: Env, verifier: Verifier, ops: seq<Op>)
    requires Monotone(env)
    ensures Invariant(cfg, env, Run(cfg, env, verifier, ops))
  {
    if ops != [] {
      RunKeepsInvariant(cfg, env, verifier, ops[..|ops| - 1]);
      OpKeepsInvariant(cfg, env, verifier, ops[|ops| - 1], Run(cfg, env, verifier, ops[..|ops| - 1]));
    }
  }

  lemma {:induction false} SpacedSpan(ttl: nat, times: seq<real>, i: nat, j: nat)
    requires ttl > 0 && Spaced(ttl, times) && i <= j < |times|
    ensures (j - i) as real * ttl as real <= times[j] - times[i]
    decreases j - i
  {
    if i < j {
      SpacedSpan(ttl, times, i, j - 1);
      assert times[j] - times[j - 1] >= ttl as real;
      assert (j - i) as real == (j - 1 - i) as real + 1.0;
    }
  }

  // Any window of the load times spans at least one TTL per step; with TTL 0 there is one load.
  ghost predicate RateBounded(ttl: nat, times: seq<real>) {
    if ttl == 0 then |times| <= 1
    else forall i: nat, j: nat :: i <= j < |times| ==> (j - i) as real * ttl as real <= times[j] - times[i]
  }

  lemma SpacedIsRateBounded(ttl: nat, times: seq<real>)
    requires Spaced(ttl, times)
    ensures RateBounded(ttl, times)
  {
    if ttl > 0 {
      forall i: nat, j: nat | i <= j < |times|
        ensures (j - i) as real * ttl as real <= times[j] - times[i]
      {
        SpacedSpan(ttl, times, i, j);
      }
    }
  }

  /** In any run mixing ordinary and forced loads, N successful ordinary loads span at least
      (N-1) TTLs of recorded load time; with TTL 0 there is at most one, ever. */
  lemma FetchRateBound(cfg: Config, env: Env, verifier: Verifier, ops: seq<Op>)
    requires Monotone(env)
    ensures RateBounded(cfg.ttl, OrdinaryLoads(Run(cfg, env, verifier, ops).history))
  {
    var s := Run(cfg, env, verifier, ops);
    assert LoadsAreSpaced(cfg, s) by {
      RunKeepsInvariant(cfg, env, verifier, ops);
    }
    SpacedIsRateBounded(cfg.ttl, OrdinaryLoads(s.history));
  }

  /** A lookup in a run, forced or not, either returns the key set that is then cached, the last one
      stored, of a recorded age below the TTL at the moment of the age test; or it fails after one
      GET and leaves cache and load time as they were. */
  lemma BoundedStaleness(cfg: Config, env: Env, verifier: Verifier, ops: seq<Op>, forced: bool)
    requires Monotone(env)
    ensures var s := Run(cfg, env, verifier, ops);
            var (s', r) := Loaded(cfg, env, s, forced);
            && (r.Success? ==>
                  && s'.cache == Some(r.value) && s'.loadedAt.Some?
                  && (cfg.ttl > 0 ==> s'.ticks > 0 && env.clock(s'.ticks - 1) - s'.loadedAt.value < cfg.ttl as real)
                  && LastStored(s'.history).Some? && Offered(LastStored(s'.history).value.reply) == r)
            && (r.Failure? ==>
                  s'.cache == s.cache && s'.loadedAt == s.loadedAt && |s'.history| == |s.history| + 1)
  {
    hide Run, Invariant, LastStored;
    var s := Run(cfg, env, verifier, ops);
    var (s', r) := Loaded(cfg, env, s, forced);
    RunKeepsInvariant(cfg, env, verifier, ops);
    LoadKeepsInvariant(cfg, env, s, forced);
    if r.Success? {
      CacheComesFromLastStored(cfg, env, s');
    }
    if s.cache.Some? {
      CacheComesFromLastStored(cfg, env, s);
    }
  }

  /** A kid missing from the cache is rejected without asking the provider only before
      loadedAt + TTL. */
  lemma RejectionWindow(cfg: Config, env: Env, verifier: Verifier, ops: seq<Op>, token: Token)
    requires Monotone(env) && cfg.ttl > 0 && IsRs256(token)
    requires var s := Run(cfg, env, verifier, ops);
             var (s', r) := Validated(cfg, env, verifier, s, token);
             r == Failure(Rejected(NoKeyForKid)) && s'.history == s.history
    ensures var s := Run(cfg, env, verifier, ops);
            && s.loadedAt.Some? && env.clock(s.ticks) < s.loadedAt.value + cfg.ttl as real
            && s.cache.Some? && Find(s.cache.value, token.header.kid.value) == Failure(Rejected(NoKeyForKid))
  {
    RunKeepsInvariant(cfg, env, verifier, ops);
  }

  /** The first call at or after loadedAt + TTL, if its GET succeeds, gives the simple validator's
      verdict on the fetched key set, and asks once more only after a bad signature. */
  lemma WindowCloses(cfg: Config, env: Env, verifier: Verifier, ops: seq<Op>, token: Token, jwks: KeySet)
    requires Monotone(env) && cfg.ttl > 0 && NeedsKeySet(cfg, token)
    requires var s := Run(cfg, env, verifier, ops);
             && s.loadedAt.Some? && env.clock(s.ticks) >= s.loadedAt.value + cfg.ttl as real
             && Offered(env.replies(|s.history|)) == Success(jwks)
    ensures var s := Run(cfg, env, verifier, ops);
            var r := Validated(cfg, env, verifier, s, token).1;
            var now := Cacheless(cfg, verifier, token, jwks);
            && (now != Failure(Rejected(BadSignature)) ==> r == now)
            && (now == Failure(Rejected(BadSignature)) ==>
                  r == Verify(cfg, verifier, token, Offered(env.replies(|s.history| + 1))))
  {
    RunKeepsInvariant(cfg, env, verifier, ops);
    ValidationIsTwoRounds(cfg, env, verifier, Run(cfg, env, verifier, ops), token);
  }

  /** In any run a key is accepted only within a TTL of the last load that had it: the key set that
      an accept relies on was stored less than a TTL before the call began, or during the call. */
  lemma AcceptedKeyIsRecent(cfg: Config, env: Env, verifier: Verifier, ops: seq<Op>, token: Token)
    requires Monotone(env) && cfg.ttl > 0 && IsRs256(token)
    requires Validated(cfg, env, verifier, Run(cfg, env, verifier, ops), token).1.Success?
    ensures var s := Run(cfg, env, verifier, ops);
            var (s', r) := Validated(cfg, env, verifier, s, token);
            var last := LastStored(s'.history);
            && last.Some? && env.clock(s.ticks) < last.value.storedAt.value + cfg.ttl as real
            && Verify(cfg, verifier, token, Offered(last.value.reply)) == r
  {
    hide Invariant, Run, Validated, LastStored, Cacheless;
    var s := Run(cfg, env, verifier, ops);
    var s' := Validated(cfg, env, verifier, s, token).0;
    RunKeepsInvariant(cfg, env, verifier, ops);
    ValidationKeepsInvariant(cfg, env, verifier, token, s);
    AcceptingKeyIsInTheCache(cfg, env, verifier, s, token);
    CacheComesFromLastStored(cfg, env, s');
    if s'.history == s.history {
      CacheComesFromLastStored(cfg, env, s);
    } else {
      FetchingCallStoresLate(cfg, env, verifier, s, token);
    }
  }

  lemma RunAppend(cfg: Config, env: Env, verifier: Verifier, ops: seq<Op>, op: Op)
    ensures Run(cfg, env, verifier, ops + [op]) == After(cfg, env, verifier, op, Run(cfg, env, verifier, ops))
  {
    assert (ops + [op])[..|ops|] == ops;
  }

  // With TTL 0 a step from a cached key set makes no GET but a forced one.
  lemma ZeroTtlStep(cfg: Config, env: Env, verifier: Verifier, s: State, op: Op)
    requires cfg.ttl == 0 && s.cache.Some?
    ensures var s' := After(cfg, env, verifier, op, s);
            && s'.cache.Some? && Forced(s'.history) >= Forced(s.history)
            && (Forced(s'.history) == Forced(s.history) ==>
                  s'.cache == s.cache && s'.loadedAt == s.loadedAt && s'.history == s.history)
  {
    hide Validated, Retried, NeedsKeySet;
    assert Loaded(cfg, env, s, false) == (s, Success(s.cache.value));
    LoadCost(cfg, env, s, true);
    match op
    case Lookup(forced) =>
    case Validate(token) =>
      if NeedsKeySet(cfg, token) {
        ValidationLoads(cfg, env, verifier, s, token);
        CallCost(cfg, env, verifier, s, token);
      } else {
        OtherTokensLeaveCacheAlone(cfg, env, verifier, s, token);
      }
  }

  lemma {:induction false} ZeroTtlRun(cfg: Config, env: Env, verifier: Verifier, ops: seq<Op>, later: seq<Op>)
    requires cfg.ttl == 0 && Run(cfg, env, verifier, ops).cache.Some?
    ensures var s, s' := Run(cfg, env, verifier, ops), Run(cfg, env, verifier, ops + later);
            && s'.cache.Some? && Forced(s'.history) >= Forced(s.history)
            && (Forced(s'.history) == Forced(s.history) ==>
                  s'.cache == s.cache && s'.loadedAt == s.loadedAt && s'.history == s.history)
  {
    hide Run, After;
    if later == [] {
      assert ops + later == ops;
    } else {
      var n := |later| - 1;
      ZeroTtlRun(cfg, env, verifier, ops, later[..n]);
      assert ops + later == ops + later[..n] + [later[n]];
      RunAppend(cfg, env, verifier, ops + later[..n], later[n]);
      ZeroTtlStep(cfg, env, verifier, Run(cfg, env, verifier, ops + later[..n]), later[n]);
    }
  }

  /** With TTL 0 a cached key set is kept for ever: until a forced refresh, every later call decides
      on it without a GET, unless it finds a bad signature.  So an absent kid stays rejected and a
      withdrawn key stays accepted, whatever the provider serves by then. */
  lemma ZeroTtlKeepsKeySet(cfg: Config, env: Env, verifier: Verifier, ops: seq<Op>, later: seq<Op>, token: Token)
    requires cfg.ttl == 0 && Run(cfg, env, verifier, ops).cache.Some? && NeedsKeySet(cfg, token)
    requires Forced(Run(cfg, env, verifier, ops + later).history) == Forced(Run(cfg, env, verifier, ops).history)
    ensures var s, s' := Run(cfg, env, verifier, ops), Run(cfg, env, verifier, ops + later);
            var (s'', r) := Validated(cfg, env, verifier, s', token);
            var frozen := Cacheless(cfg, verifier, token, s.cache.value);
            && s'.cache == s.cache && s'.history == s.history
            && (s''.history == s.history <==> frozen != Failure(Rejected(BadSignature)))
            && (frozen != Failure(Rejected(BadSignature)) ==> r == frozen && s''.cache == s.cache)
  {
    hide Run, Validated, Cacheless, NeedsKeySet;
    ZeroTtlRun(cfg, env, verifier, ops, later);
    var s' := Run(cfg, env, verifier, ops + later);
    ValidationIsTwoRounds(cfg, env, verifier, s', token);
    CallCost(cfg, env, verifier, s', token);
    ValidationLoads(cfg, env, verifier, s', token);
  }

  lemma CacheComesFromLastStored(cfg: Config, env: Env, s: State)
    requires Invariant(cfg, env, s) && s.cache.Some?
    ensures s.loadedAt.Some? && LastStored(s.history).Some?
    ensures LastStored(s.history).value.storedAt == s.loadedAt
    ensures Offered(LastStored(s.history).value.reply) == Success(s.cache.value)
  {
    hide Faithful, LoadsAreSpaced;
  }

  // A call that accepts after a GET has stored the body of its last GET.
  lemma FetchingCallStoresLate(cfg: Config, env: Env, verifier: Verifier, s: State, token: Token)
    requires Monotone(env) && IsRs256(token)
    requires Validated(cfg, env, verifier, s, token).1.Success?
    requires Validated(cfg, env, verifier, s, token).0.history != s.history
    ensures var s' := Validated(cfg, env, verifier, s, token).0;
            s'.loadedAt.Some? && env.clock(s.ticks) <= s'.loadedAt.value && |s'.history| > |s.history|
  {
    var (s1, jwks) := Loaded(cfg, env, s, false);
    assert s.ticks <= s1.ticks;
  }

  // Every GET that succeeds brings this key set.
  ghost predicate AlwaysServes(env: Env, jwks: KeySet) {
    forall n: nat :: Offered(env.replies(n)).Success? ==> Offered(env.replies(n)) == Success(jwks)
  }

  lemma LoadKeepsKeySet(cfg: Config, env: Env, s: State, forced: bool, jwks: KeySet)
    requires AlwaysServes(env, jwks) && (s.cache == None || s.cache == Some(jwks))
    ensures var s' := Loaded(cfg, env, s, forced).0;
            s'.cache == None || s'.cache == Some(jwks)
  {
    var reply := env.replies(|s.history|);
    assert Offered(reply).Success? ==> Offered(reply) == Success(jwks);
  }

  lemma {:induction false} RunKeepsKeySet(cfg: Config, env: Env, verifier: Verifier, ops: seq<Op>, jwks: KeySet)
    requires AlwaysServes(env, jwks)
    ensures var s := Run(cfg, env, verifier, ops);
            s.cache == None || s.cache == Some(jwks)
  {
    hide AlwaysServes, Loaded, Validated;
    if ops != [] {
      var before, op := ops[..|ops| - 1], ops[|ops| - 1];
      RunKeepsKeySet(cfg, env, verifier, before, jwks);
      var s := Run(cfg, env, verifier, before);
      match op
      case Lookup(forced) => LoadKeepsKeySet(cfg, env, s, forced, jwks);
      case Validate(token) =>
        LoadKeepsKeySet(cfg, env, s, false, jwks);
        LoadKeepsKeySet(cfg, env, Loaded(cfg, env, s, false).0, true, jwks);
        if NeedsKeySet(cfg, token) {
          ValidationLoads(cfg, env, verifier, s, token);
        } else {
          OtherTokensLeaveCacheAlone(cfg, env, verifier, s, token);
        }
    }
  }

  /** As long as the provider does not change its keys the cache cannot be noticed: at every point
      of every run a token gets the simple validator's result, or the failure of a GET. */
  lemma CacheIsInvisible(cfg: Config, env: Env, verifier: Verifier, ops: seq<Op>, token: Token, jwks: KeySet)
    requires AlwaysServes(env, jwks) && NeedsKeySet(cfg, token)
    ensures var s := Run(cfg, env, verifier, ops);
            var r := Validated(cfg, env, verifier, s, token).1;
            || r == Cacheless(cfg, verifier, token, jwks)
            || (FirstKeySet(cfg, env, s).Failure? && r == Failure(FirstKeySet(cfg, env, s).error))
            || (Cacheless(cfg, verifier, token, jwks) == Failure(Rejected(BadSignature))
                && SecondKeySet(cfg, env, s).Failure? && r == Failure(SecondKeySet(cfg, env, s).error))
  {
    hide Run, Validated, Cacheless, NeedsKeySet;
    var s := Run(cfg, env, verifier, ops);
    RunKeepsKeySet(cfg, env, verifier, ops, jwks);
    ValidationIsTwoRounds(cfg, env, verifier, s, token);
    assert FirstKeySet(cfg, env, s).Success? ==> FirstKeySet(cfg, env, s) == Success(jwks);
    assert SecondKeySet(cfg, env, s).Success? ==> SecondKeySet(cfg, env, s) == Success(jwks);
  }
}
