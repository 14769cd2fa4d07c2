/** Runs of a new service after which the JWKS cache decides a token otherwise than the key set that
    the provider serves would. */
module JwksExamples {
  import opened Wrappers
  import opened JwksCache
  import opened JwksTheorems

  // A provider that serves one key set to the first GET and another one from then on.
  function Rotates(before: KeySet, after: KeySet, now: real): Env {
    Env((n: nat) => Replied(200, Some(if n == 0 then before else after)), (n: nat) => now)
  }

  lemma OneLookup(cfg: Config, verifier: Verifier, before: KeySet, after: KeySet, now: real)
    ensures var env := Rotates(before, after, now);
            var s := Run(cfg, env, verifier, [Lookup(false)]);
            s.cache == Some(before) && Live(cfg, env, s) && Serves(env, s, after)
  {
    var env := Rotates(before, after, now);
    assert Run(cfg, env, verifier, [Lookup(false)][..0]) == FRESH;
    assert Run(cfg, env, verifier, [Lookup(false)]) == Loaded(cfg, env, FRESH, false).0;
  }

  /** A key added after the lookup: a token that the served key set accepts is rejected, and the
      provider is not asked. */
  lemma AddedKeyIsMissed(cfg: Config, verifier: Verifier, token: Token, served: KeySet, now: real)
    requires NeedsKeySet(cfg, token) && Cacheless(cfg, verifier, token, served).Success?
    ensures var env := Rotates(KeyList([]), served, now);
            var s := Run(cfg, env, verifier, [Lookup(false)]);
            var (s', r) := Validated(cfg, env, verifier, s, token);
            && Serves(env, s, served)
            && r == Failure(Rejected(NoKeyForKid)) && s'.history == s.history
  {
    OneLookup(cfg, verifier, KeyList([]), served, now);
  }

  /** A key withdrawn after the lookup: a token it signed is accepted, though the served key set
      rejects it, and the provider is not asked. */
  lemma WithdrawnKeyIsAccepted(cfg: Config, verifier: Verifier, token: Token, held: KeySet, now: real)
    requires NeedsKeySet(cfg, token) && Cacheless(cfg, verifier, token, held).Success?
    ensures var env := Rotates(held, KeyList([]), now);
            var s := Run(cfg, env, verifier, [Lookup(false)]);
            var (s', r) := Validated(cfg, env, verifier, s, token);
            && Serves(env, s, KeyList([]))
            && Cacheless(cfg, verifier, token, KeyList([])) == Failure(Rejected(NoKeyForKid))
            && r == Cacheless(cfg, verifier, token, held) && s'.history == s.history
  {
    OneLookup(cfg, verifier, held, KeyList([]), now);
  }

  /** For instance with the default TTL of 300 seconds and one key, whose token is good. */
  lemma DefaultTtlMissesAndKeeps()
    ensures var cfg := Config(300, ["RS256"], None);
            var verifier := Verifier((token, key) => true, token => Good(Claims(0)));
            var token := Token(Header(Some("RS256"), Some("k")), 0);
            var one := KeyList([Jwk(Some("k"), Some(Key(1)))]);
            var added := Rotates(KeyList([]), one, 0.0);
            var withdrawn := Rotates(one, KeyList([]), 0.0);
            && Cacheless(cfg, verifier, token, one) == Success(Claims(0))
            && Validated(cfg, added, verifier, Run(cfg, added, verifier, [Lookup(false)]), token).1
               == Failure(Rejected(NoKeyForKid))
            && Validated(cfg, withdrawn, verifier, Run(cfg, withdrawn, verifier, [Lookup(false)]), token).1
               == Success(Claims(0))
  {
    hide Validated, Run;
    var cfg := Config(300, ["RS256"], None);
    var verifier := Verifier((token, key) => true, token => Good(Claims(0)));
    var token := Token(Header(Some("RS256"), Some("k")), 0);
    var jwk := Jwk(Some("k"), Some(Key(1)));
    FirstForKidIsFirst([jwk], "k", 0);
    assert Cacheless(cfg, verifier, token, KeyList([jwk])) == Success(Claims(0));
    AddedKeyIsMissed(cfg, verifier, token, KeyList([jwk]), 0.0);
    WithdrawnKeyIsAccepted(cfg, verifier, token, KeyList([jwk]), 0.0);
  }
}
