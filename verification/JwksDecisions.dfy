/** What a lookup and a validation decide, read off the token, the configuration, the cache, the replies
    and the clock: for each outcome exactly when it comes, and with which claims or error. */
module JwksDecisions {
  import opened Wrappers
  import opened JwksCache

  // ----- The key of a kid -----

  // The first object of the list that carries the kid.
  ghost predicate IsFirstEntry(entries: seq<Candidate>, kid: string, i: nat) {
    && i < |entries| && entries[i].Jwk? && entries[i].kid == Some(kid)
    && forall j :: 0 <= j < i ==> !(entries[j].Jwk? && entries[j].kid == Some(kid))
  }

  // That entry gives this key, or None if no key can be built from it.
  ghost predicate HasEntry(jwks: KeySet, kid: string, key: Option<Key>) {
    jwks.KeyList? && exists i: nat :: IsFirstEntry(jwks.entries, kid, i) && jwks.entries[i].publicKey == key
  }

  ghost predicate HasNoEntry(jwks: KeySet, kid: string) {
    jwks.KeyList? && forall i :: 0 <= i < |jwks.entries| ==>
      !(jwks.entries[i].Jwk? && jwks.entries[i].kid == Some(kid))
  }

  /** A search ends with the first entry for the kid, or says that there is none, or no list. */
  lemma FindIs(jwks: KeySet, kid: string)
    ensures jwks.NoKeyList? ==> Find(jwks, kid) == Failure(Rejected(JwksInvalid))
    ensures HasNoEntry(jwks, kid) ==> Find(jwks, kid) == Failure(Rejected(NoKeyForKid))
    ensures jwks.KeyList? ==> forall i: nat :: IsFirstEntry(jwks.entries, kid, i) ==>
              Find(jwks, kid) == Success(jwks.entries[i])
  {
    if jwks.KeyList? {
      forall i: nat | IsFirstEntry(jwks.entries, kid, i)
        ensures Find(jwks, kid) == Success(jwks.entries[i])
      {
        FirstForKidIsFirst(jwks.entries, kid, i);
      }
    }
  }

  lemma SomeEntryOrNone(entries: seq<Candidate>, kid: string) returns (i: nat)
    ensures IsFirstEntry(entries, kid, i) || HasNoEntry(KeyList(entries), kid)
  {
    i := 0;
    while i < |entries| && !(entries[i].Jwk? && entries[i].kid == Some(kid))
      invariant i <= |entries|
      invariant forall j :: 0 <= j < i ==> !(entries[j].Jwk? && entries[j].kid == Some(kid))
    {
      i := i + 1;
    }
  }

  lemma KeyForIs(jwks: KeySet, kid: string)
    ensures forall key :: KeyFor(jwks, kid) == Success(key) <==> HasEntry(jwks, kid, Some(key))
    ensures KeyFor(jwks, kid) == Failure(Rejected(InvalidKey)) <==> HasEntry(jwks, kid, None)
    ensures KeyFor(jwks, kid) == Failure(Rejected(NoKeyForKid)) <==> HasNoEntry(jwks, kid)
    ensures KeyFor(jwks, kid) == Failure(Rejected(JwksInvalid)) <==> jwks.NoKeyList?
    ensures KeyFor(jwks, kid).Failure? ==>
              KeyFor(jwks, kid).error in {Rejected(InvalidKey), Rejected(NoKeyForKid), Rejected(JwksInvalid)}
  {
    FindIs(jwks, kid);
    if jwks.KeyList? {
      var i := SomeEntryOrNone(jwks.entries, kid);
      if IsFirstEntry(jwks.entries, kid, i) {
        assert forall j: nat :: IsFirstEntry(jwks.entries, kid, j) ==> j == i;
        assert HasEntry(jwks, kid, jwks.entries[i].publicKey);
      }
    }
  }

  // ----- A lookup -----

  // The cached key set may be used: there is one, and its age is below the TTL or does not matter.
  ghost predicate IsUsable(cfg: Config, env: Env, s: State) {
    && s.cache.Some?
    && (s.loadedAt.Some? && cfg.ttl != 0 ==> env.clock(s.ticks) - s.loadedAt.value < cfg.ttl as real)
  }

  // The reply is a success and a JSON object.
  ghost predicate Brings(reply: Reply, jwks: KeySet) {
    reply.Replied? && 200 <= reply.status < 300 && reply.body == Some(jwks)
  }

  /** A lookup that asks the provider succeeds if and only if the reply has a status from 200 to 299 and
      a JSON object, and then returns it and caches it with the time of the reading just made; every
      other reply fails and leaves cache and load time as they were.  A lookup that does not ask
      returns the cached key set and changes neither. */
  lemma LookupIs(cfg: Config, env: Env, s: State, forced: bool)
    ensures var (s', r) := Loaded(cfg, env, s, forced);
            var reply := env.replies(|s.history|);
            var tested := !forced && s.cache.Some? && s.loadedAt.Some? && cfg.ttl != 0;
            && s'.tried == s.tried
            && (!forced && IsUsable(cfg, env, s) ==>
                  && r == Success(s.cache.value) && s'.cache == s.cache && s'.loadedAt == s.loadedAt
                  && s'.history == s.history && s'.ticks == s.ticks + (if tested then 1 else 0))
            && (forced || !IsUsable(cfg, env, s) ==>
                  if reply.Replied? && 200 <= reply.status < 300 && reply.body.Some? then
                    && r == Success(reply.body.value) && s'.cache == reply.body
                    && s'.ticks == s.ticks + (if tested then 2 else 1)
                    && s'.loadedAt == Some(env.clock(s'.ticks - 1))
                    && s'.history == s.history + [Get(forced, reply, s'.loadedAt)]
                  else
                    && r == Failure(if reply.Raised? then TransportError else Rejected(JwksUnavailable))
                    && s'.cache == s.cache && s'.loadedAt == s.loadedAt
                    && s'.ticks == s.ticks + (if tested then 1 else 0)
                    && s'.history == s.history + [Get(forced, reply, None)])
  {
  }

  // ----- The key for a header -----

  // The result of searching the key set that a lookup gave.
  ghost predicate IsKeyFound(jwks: Result<KeySet, Failure>, kid: string, r: Result<Key, Failure>) {
    match jwks
    case Failure(error) => r == Failure(error)
    case Success(keys) =>
      match r
      case Success(key) => HasEntry(keys, kid, Some(key))
      case Failure(Rejected(JwksInvalid)) => keys.NoKeyList?
      case Failure(Rejected(NoKeyForKid)) => HasNoEntry(keys, kid)
      case Failure(Rejected(InvalidKey)) => HasEntry(keys, kid, None)
      case _ => false
  }

  /** HS256 takes the configured key; RS256 looks the key set up, not forced, and searches it for the kid;
      a missing key, a missing or empty kid and any other algorithm are errors without a lookup. */
  lemma ResolvedIs(cfg: Config, env: Env, s: State, header: Header)
    ensures var (s', r) := Resolved(cfg, env, s, header);
            if header.alg == Some("RS256") && header.kid.Some? && header.kid.value != "" then
              var (after, jwks) := Loaded(cfg, env, s, false);
              s' == after && IsKeyFound(jwks, header.kid.value, r)
            else
              s' == s && match r
                         case Success(key) => header.alg == Some("HS256") && cfg.verificationKey == Some(key)
                         case Failure(error) =>
                           if header.alg == Some("HS256") then
                             error == Rejected(MissingVerificationKey) && cfg.verificationKey.None?
                           else if header.alg == Some("RS256") then error == Rejected(MissingKid)
                           else error == Rejected(UnsupportedAlgorithm)
  {
    hide KeyFor, HasEntry, HasNoEntry, Loaded;
    if header.alg == Some("RS256") && header.kid.Some? && header.kid.value != "" {
      var (_, jwks) := Loaded(cfg, env, s, false);
      if jwks.Success? {
        KeyForIs(jwks.value, header.kid.value);
      }
    }
  }

  /** Without a kid or without a cache there is nothing to refresh; else the key set is fetched by force and
      searched for the kid. */
  lemma RefreshedIs(cfg: Config, env: Env, s: State, header: Header)
    ensures var (s', r) := Refreshed(cfg, env, s, header);
            if header.kid.None? || header.kid.value == "" || s.cache.None? then s' == s && r == Success(None)
            else
              var (after, jwks) := Loaded(cfg, env, s, true);
              && s' == after && r != Success(None)
              && IsKeyFound(jwks, header.kid.value,
                            if r.Failure? then Failure(r.error) else Success(r.value.value))
  {
    hide KeyFor, HasEntry, HasNoEntry, Loaded;
    if !(header.kid.None? || header.kid.value == "" || s.cache.None?) {
      var (_, jwks) := Loaded(cfg, env, s, true);
      if jwks.Success? {
        KeyForIs(jwks.value, header.kid.value);
      }
    }
  }

  // ----- A validation -----

  // The key set of the first round.
  ghost predicate IsFirstSet(cfg: Config, env: Env, s: State, jwks: KeySet) {
    if IsUsable(cfg, env, s) then s.cache == Some(jwks) else Brings(env.replies(|s.history|), jwks)
  }

  // The key of the token's kid verifies the signature; or it does not.
  ghost predicate IsSigned(verifier: Verifier, token: Token, jwks: KeySet)
    requires token.Token? && token.header.kid.Some?
  {
    exists key :: HasEntry(jwks, token.header.kid.value, Some(key)) && verifier.signs(token, key)
  }

  ghost predicate IsMissigned(verifier: Verifier, token: Token, jwks: KeySet)
    requires token.Token? && token.header.kid.Some?
  {
    exists key :: HasEntry(jwks, token.header.kid.value, Some(key)) && !verifier.signs(token, key)
  }

  // What a round comes to, but for a key that does not verify the signature.
  ghost predicate RoundEnds(verifier: Verifier, token: Token, jwks: KeySet, r: Result<Claims, Failure>)
    requires token.Token? && token.header.kid.Some?
  {
    var kid := token.header.kid.value;
    match r
    case Success(claims) => IsSigned(verifier, token, jwks) && verifier.verdict(token) == Good(claims)
    case Failure(Rejected(JwksInvalid)) => jwks.NoKeyList?
    case Failure(Rejected(NoKeyForKid)) => HasNoEntry(jwks, kid)
    case Failure(Rejected(InvalidKey)) => HasEntry(jwks, kid, None)
    case Failure(Rejected(MalformedToken)) => IsSigned(verifier, token, jwks) && verifier.verdict(token) == NotAMapping
    case Failure(Rejected(InvalidClaims)) => IsSigned(verifier, token, jwks) && verifier.verdict(token) == BadClaims
    case _ => false
  }

  // No key set comes with the reply, and the validation ends for that.
  ghost predicate ReplyFails(reply: Reply, r: Result<Claims, Failure>) {
    && (forall jwks :: !Brings(reply, jwks))
    && r == Failure(if reply.Raised? then TransportError else Rejected(JwksUnavailable))
  }

  ghost predicate LastRoundEnds(verifier: Verifier, token: Token, jwks: KeySet, r: Result<Claims, Failure>)
    requires token.Token? && token.header.kid.Some?
  {
    || RoundEnds(verifier, token, jwks, r)
    || (IsMissigned(verifier, token, jwks) && r == Failure(Rejected(BadSignature)))
  }

  ghost predicate RefreshEnds(verifier: Verifier, token: Token, reply: Reply, r: Result<Claims, Failure>)
    requires token.Token? && token.header.kid.Some?
  {
    ReplyFails(reply, r) || exists jwks :: Brings(reply, jwks) && LastRoundEnds(verifier, token, jwks, r)
  }

  ghost predicate FirstRoundEnds(verifier: Verifier, token: Token, jwks: KeySet, again: Reply,
                                 r: Result<Claims, Failure>)
    requires token.Token? && token.header.kid.Some?
  {
    || RoundEnds(verifier, token, jwks, r)
    || (IsMissigned(verifier, token, jwks) && RefreshEnds(verifier, token, again, r))
  }

  /** The decision on a token with RS256 and a kid: the GET fails, or the first key set decides, or its
      key does not verify the signature and the reply to a forced refresh decides. */
  ghost predicate IsRs256Verdict(cfg: Config, env: Env, verifier: Verifier, s: State, token: Token,
                                 r: Result<Claims, Failure>)
    requires token.Token? && token.header.kid.Some?
  {
    var usable := IsUsable(cfg, env, s);
    var again := env.replies(|s.history| + if usable then 0 else 1);
    || (!usable && ReplyFails(env.replies(|s.history|), r))
    || exists jwks :: IsFirstSet(cfg, env, s, jwks) && FirstRoundEnds(verifier, token, jwks, again, r)
  }

  /** The decision on every token. */
  ghost predicate IsVerdict(cfg: Config, env: Env, verifier: Verifier, s: State, token: Token,
                            r: Result<Claims, Failure>)
  {
    if token.Unreadable? then r == Failure(Rejected(MalformedToken))
    else if token.header.alg.None? || token.header.alg.value !in cfg.allowed then
      r == Failure(Rejected(UnsupportedAlgorithm))
    else if token.header.alg.value == "HS256" then
      match cfg.verificationKey
      case None => r == Failure(Rejected(MissingVerificationKey))
      case Some(key) =>
        if !verifier.signs(token, key) then r == Failure(Rejected(BadSignature))
        else match verifier.verdict(token)
             case Good(claims) => r == Success(claims)
             case NotAMapping => r == Failure(Rejected(MalformedToken))
             case BadClaims => r == Failure(Rejected(InvalidClaims))
    else if token.header.alg.value != "RS256" then r == Failure(Rejected(UnsupportedAlgorithm))
    else if token.header.kid.None? || token.header.kid.value == "" then r == Failure(Rejected(MissingKid))
    else IsRs256Verdict(cfg, env, verifier, s, token, r)
  }

  // One round with a key set at hand.
  function Round(verifier: Verifier, token: Token, jwks: KeySet): Result<Claims, Failure>
    requires token.Token? && token.header.kid.Some?
  {
    var key :- KeyFor(jwks, token.header.kid.value);
    Decode(verifier, token, key)
  }

  lemma RoundIff(verifier: Verifier, token: Token, jwks: KeySet, r: Result<Claims, Failure>)
    requires token.Token? && token.header.kid.Some?
    ensures RoundEnds(verifier, token, jwks, r) <==>
            Round(verifier, token, jwks) == r && r != Failure(Rejected(BadSignature))
    ensures IsMissigned(verifier, token, jwks) <==>
            Round(verifier, token, jwks) == Failure(Rejected(BadSignature))
  {
    hide HasEntry, HasNoEntry, KeyFor;
    KeyForIs(jwks, token.header.kid.value);
  }

  // ----- Validation decides as stated -----

  // A forced refresh and the round that follows it.
  function AfterRefresh(env: Env, verifier: Verifier, n: nat, token: Token): Result<Claims, Failure>
    requires token.Token? && token.header.kid.Some?
  {
    var reply := env.replies(n);
    if reply.Replied? && 200 <= reply.status < 300 && reply.body.Some? then Round(verifier, token, reply.body.value)
    else Failure(if reply.Raised? then TransportError else Rejected(JwksUnavailable))
  }

  lemma RefreshIff(env: Env, verifier: Verifier, n: nat, token: Token, r: Result<Claims, Failure>)
    requires token.Token? && token.header.kid.Some?
    ensures RefreshEnds(verifier, token, env.replies(n), r) <==> AfterRefresh(env, verifier, n, token) == r
  {
    hide RoundEnds, IsMissigned, Round;
    var reply := env.replies(n);
    if reply.Replied? && 200 <= reply.status < 300 && reply.body.Some? {
      assert Brings(reply, reply.body.value);
      RoundIff(verifier, token, reply.body.value, r);
    }
  }

  predicate IsRs256WithKid(cfg: Config, token: Token) {
    && token.Token? && token.header.alg == Some("RS256") && "RS256" in cfg.allowed
    && token.header.kid.Some? && token.header.kid.value != ""
  }

  lemma ValidatedByRounds(cfg: Config, env: Env, verifier: Verifier, s: State, token: Token)
    requires IsRs256WithKid(cfg, token)
    ensures var usable := IsUsable(cfg, env, s);
            var reply := env.replies(|s.history|);
            var again := |s.history| + if usable then 0 else 1;
            Validated(cfg, env, verifier, s, token).1 ==
              if !usable && !(reply.Replied? && 200 <= reply.status < 300 && reply.body.Some?) then
                Failure(if reply.Raised? then TransportError else Rejected(JwksUnavailable))
              else
                var first := Round(verifier, token, if usable then s.cache.value else reply.body.value);
                if first == Failure(Rejected(BadSignature)) then AfterRefresh(env, verifier, again, token) else first
  {
    hide KeyFor, Loaded, HasEntry, HasNoEntry;
    LookupIs(cfg, env, s, false);
    var (s1, jwks) := Loaded(cfg, env, s, false);
    if jwks.Success? {
      var key := KeyFor(jwks.value, token.header.kid.value);
      KeyForIs(jwks.value, token.header.kid.value);
      if key.Success? && Decode(verifier, token, key.value) == Failure(Rejected(BadSignature)) {
        var s2 := s1.(tried := s1.tried + [key.value]);
        LookupIs(cfg, env, s2, true);
      }
    }
  }

  lemma Rs256VerdictIff(cfg: Config, env: Env, verifier: Verifier, s: State, token: Token, r: Result<Claims, Failure>)
    requires IsRs256WithKid(cfg, token)
    ensures IsRs256Verdict(cfg, env, verifier, s, token, r) <==> Validated(cfg, env, verifier, s, token).1 == r
  {
    hide RoundEnds, IsMissigned, Round, RefreshEnds, AfterRefresh, Validated;
    ValidatedByRounds(cfg, env, verifier, s, token);
    var usable, reply := IsUsable(cfg, env, s), env.replies(|s.history|);
    RefreshIff(env, verifier, |s.history| + if usable then 0 else 1, token, r);
    if usable || (reply.Replied? && 200 <= reply.status < 300 && reply.body.Some?) {
      var jwks := if usable then s.cache.value else reply.body.value;
      assert IsFirstSet(cfg, env, s, jwks) && forall other :: IsFirstSet(cfg, env, s, other) ==> other == jwks;
      RoundIff(verifier, token, jwks, r);
    }
  }

  /** The result of validating a token is the one verdict on it, errors included. */
  lemma ValidatedIsVerdict(cfg: Config, env: Env, verifier: Verifier, s: State, token: Token,
                           r: Result<Claims, Failure>)
    ensures Validated(cfg, env, verifier, s, token).1 == r <==> IsVerdict(cfg, env, verifier, s, token, r)
  {
    hide IsRs256Verdict;
    if IsRs256WithKid(cfg, token) {
      Rs256VerdictIff(cfg, env, verifier, s, token, r);
    }
  }

  /** A token is accepted only with an allowed algorithm and good claims.  One that is not RS256 is
      accepted if and only if it is HS256, this is allowed, and the configured key verifies it; one that
      is, only if the first entry for its kid, in the cache as the call leaves it, verifies it. */
  lemma AcceptedIff(cfg: Config, env: Env, verifier: Verifier, s: State, token: Token, claims: Claims)
    ensures var (s', r) := Validated(cfg, env, verifier, s, token);
            && (r == Success(claims) ==>
                  && token.Token? && token.header.alg.Some? && token.header.alg.value in cfg.allowed
                  && token.header.alg.value in ["HS256", "RS256"] && verifier.verdict(token) == Good(claims))
            && (!(token.Token? && token.header.alg == Some("RS256")) ==>
                  (r == Success(claims) <==>
                     && token.Token? && token.header.alg == Some("HS256") && "HS256" in cfg.allowed
                     && cfg.verificationKey.Some? && verifier.signs(token, cfg.verificationKey.value)
                     && verifier.verdict(token) == Good(claims)))
            && (token.Token? && token.header.alg == Some("RS256") && r == Success(claims) ==>
                  && token.header.kid.Some? && token.header.kid.value != "" && s'.cache.Some?
                  && IsSigned(verifier, token, s'.cache.value))
  {
    hide HasEntry, KeyFor;
    ValidatedIsVerdict(cfg, env, verifier, s, token, Success(claims));
    if IsRs256WithKid(cfg, token) && Validated(cfg, env, verifier, s, token).1 == Success(claims) {
      Rs256AcceptedByCache(cfg, env, verifier, s, token, claims);
    }
  }

  lemma Rs256AcceptedByCache(cfg: Config, env: Env, verifier: Verifier, s: State, token: Token, claims: Claims)
    requires IsRs256WithKid(cfg, token) && Validated(cfg, env, verifier, s, token).1 == Success(claims)
    ensures var s' := Validated(cfg, env, verifier, s, token).0;
            s'.cache.Some? && IsSigned(verifier, token, s'.cache.value) && verifier.verdict(token) == Good(claims)
  {
    hide HasEntry, KeyFor;
    LookupIs(cfg, env, s, false);
    var s1 := Loaded(cfg, env, s, false).0;
    LookupIs(cfg, env, s1, true);
    KeyForIs(s1.cache.value, token.header.kid.value);
    var s2 := Loaded(cfg, env, s1, true).0;
    if s2.cache.Some? {
      KeyForIs(s2.cache.value, token.header.kid.value);
    }
  }
}
