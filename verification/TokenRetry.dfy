/** `fetch_access_token`: the retry loop around the token request, which keeps a counter of its own
    and emits one event per POST. */
module TokenRetry {
  import opened Wrappers
  import opened Retry

  // The number under "expires_in", if there is one and if it converts to an integer.
  datatype ExpiresIn = Missing | NotANumber | Seconds(n: int)

  datatype Body = Body(accessToken: string, tokenType: string, expiresIn: ExpiresIn)

  // The answer to one POST; the body is None when it is not a JSON object.
  datatype Reply = NetworkFailure | OtherException | Replied(status: int, body: Option<Body>)

  datatype AccessToken = AccessToken(accessToken: string, tokenType: string, expiresIn: int)

  datatype TokenError = ConfigurationError | AuthenticationError | TemporaryError | PermanentError | InvalidMaxAttempts

  type TokenResult = Result<AccessToken, TokenError>

  datatype Kind = Succeeded | TemporarilyFailed | Failed

  datatype Event = Event(kind: Kind, retryCount: nat)

  function ParseTokenResponse(status: int, body: Option<Body>): TokenResult {
    if 200 <= status < 300 then
      if body.None? || body.value.accessToken == "" || body.value.tokenType == "" || body.value.expiresIn.Missing?
      then Failure(PermanentError)
      else match body.value.expiresIn
           case Seconds(n) => Success(AccessToken(body.value.accessToken, body.value.tokenType, n))
           case _ => Failure(PermanentError)
    else if status == 400 || status == 401 || status == 403 then Failure(AuthenticationError)
    else if status == 408 || status == 429 || status >= 500 then Failure(TemporaryError)
    else Failure(PermanentError)
  }

  // What one POST comes to, seen from the retry loop.
  function Outcome(reply: Reply): TokenResult {
    match reply
    case NetworkFailure => Failure(TemporaryError)
    case OtherException => Failure(PermanentError)
    case Replied(status, body) => ParseTokenResponse(status, body)
  }

  predicate IsTemporary(reply: Reply) {
    Outcome(reply) == Failure(TemporaryError)
  }

  // Which of the replies are worth another attempt, for the retry loop.
  function Temporaries(replies: nat -> Reply): nat -> bool {
    (i: nat) => IsTemporary(replies(i))
  }

  // The replies that are worth another attempt, and those that give a token, read off the reply.
  predicate IsPassing(reply: Reply) {
    || reply.NetworkFailure?
    || (reply.Replied? && (reply.status == 408 || reply.status == 429 || reply.status >= 500))
  }

  predicate Grants(reply: Reply, token: AccessToken) {
    && reply.Replied? && 200 <= reply.status < 300
    && reply.body == Some(Body(token.accessToken, token.tokenType, Seconds(token.expiresIn)))
    && token.accessToken != "" && token.tokenType != ""
  }

  function KindOf(r: TokenResult): Kind {
    if r.Success? then Succeeded else if r.error == TemporaryError then TemporarilyFailed else Failed
  }

  function EventOf(reply: Reply, i: nat): Event {
    Event(KindOf(Outcome(reply)), i)
  }

  // ----- The client -----

  datatype Config = Config(maxRetries: nat, passwordGrant: bool)

  const BASE_DELAY: real := 0.5

  // What the HTTP client, the timer, the event logger and the sleep function have seen.
  datatype Log = Log(posts: nat, timerReadings: nat, events: seq<Event>, sleeps: seq<real>)

  // The replies from the p-th POST on.
  function From(replies: nat -> Reply, p: nat): nat -> Reply {
    (i: nat) => replies(p + i)
  }

  // The events of one call: one for each POST, numbered from 0.
  function EventsOf(replies: nat -> Reply, n: nat): seq<Event> {
    seq(n, (i: nat) => EventOf(replies(i), i))
  }

  lemma OneMore(log: Log, replies: nat -> Reply, base: real, n: nat)
    ensures EventsOf(replies, n + 1) == EventsOf(replies, n) + [EventOf(replies(n), n)]
    ensures Delays(base, n + 1) == Delays(base, n) + [Delay(base, n)]
    ensures log.events + EventsOf(replies, n + 1) == log.events + EventsOf(replies, n) + [EventOf(replies(n), n)]
    ensures log.sleeps + Delays(base, n + 1) == log.sleeps + Delays(base, n) + [Delay(base, n)]
  {
  }

  class TokenClient {
    const config: Config
    const replies: nat -> Reply

    var posts: nat
    var timerReadings: nat
    var events: seq<Event>
    var sleeps: seq<real>

    // The counter shared by the token requests of one call.
    var attemptIndex: nat

    function Abs(): Log
      reads this
    {
      Log(posts, timerReadings, events, sleeps)
    }

    constructor (config: Config, replies: nat -> Reply)
      ensures this.config == config && this.replies == replies
      ensures Abs() == Log(0, 0, [], [])
    {
      this.config := config;
      this.replies := replies;
      posts, timerReadings, attemptIndex := 0, 0, 0;
      events, sleeps := [], [];
    }

    method Timer()
      modifies this`timerReadings
      ensures timerReadings == old(timerReadings) + 1
    {
      timerReadings := timerReadings + 1;
    }

    method Post() returns (reply: Reply)
      modifies this`posts
      ensures reply == replies(old(posts)) && posts == old(posts) + 1
    {
      reply := replies(posts);
      posts := posts + 1;
    }

    // One token request: the timer before and after, one POST, one event.
    method RequestToken() returns (r: TokenResult)
      modifies this`posts, this`timerReadings, this`events, this`attemptIndex
      ensures r == Outcome(replies(old(posts)))
      ensures Abs() == Log(old(posts) + 1, old(timerReadings) + 2,
                           old(events) + [EventOf(replies(old(posts)), old(attemptIndex))], old(sleeps))
      ensures attemptIndex == old(attemptIndex) + 1
    {
      Timer();
      var reply := Post();
      match reply {
        case NetworkFailure => r := Failure(TemporaryError);
        case OtherException => r := Failure(PermanentError);
        case Replied(status, body) => r := ParseTokenResponse(status, body);
      }
      Timer();
      if r.Failure? {
        events := events + [Event(if r.error == TemporaryError then TemporarilyFailed else Failed, attemptIndex)];
      } else {
        events := events + [Event(Succeeded, attemptIndex)];
      }
      attemptIndex := attemptIndex + 1;
    }

    // `retry_call` on the token request; the closure's counter starts where the loop's does.
    method RetryCall(maxAttempts: int, baseDelay: real) returns (r: TokenResult)
      requires attemptIndex == 0
      modifies this
      ensures maxAttempts < 1 ==> r == Failure(InvalidMaxAttempts) && Abs() == old(Abs()) && attemptIndex == 0
      ensures maxAttempts >= 1 ==>
                var mine := From(replies, old(posts));
                var n := AttemptsFrom(Temporaries(mine), 0, maxAttempts);
                && r == Outcome(mine(n - 1)) && attemptIndex == n
                && Abs() == Log(old(posts) + n, old(timerReadings) + 2 * n, old(events) + EventsOf(mine, n),
                                old(sleeps) + Delays(baseDelay, n - 1))
    {
      hide Outcome, EventOf, Delay;
      if maxAttempts < 1 {
        return Failure(InvalidMaxAttempts);
      }
      ghost var mine := From(replies, posts);
      var attempt := 0;
      while true
        invariant 0 <= attempt < maxAttempts && attemptIndex == attempt
        invariant posts == old(posts) + attempt && timerReadings == old(timerReadings) + 2 * attempt
        invariant events == old(events) + EventsOf(mine, attempt)
        invariant sleeps == old(sleeps) + Delays(baseDelay, attempt)
        invariant AttemptsFrom(Temporaries(mine), 0, maxAttempts) ==
          AttemptsFrom(Temporaries(mine), attempt, maxAttempts)
        decreases maxAttempts - attempt
      {
        OneMore(old(Abs()), mine, baseDelay, attempt);
        attempt := attempt + 1;
        r := RequestToken();
        if r != Failure(TemporaryError) {
          return;
        }
        if attempt >= maxAttempts {
          return;
        }
        sleeps := sleeps + [Delay(baseDelay, attempt - 1)];
      }
    }

    /** For every sequence of replies: how many POSTs are made, which events are emitted, how long
        the call sleeps, and what it returns. */
    method FetchAccessToken(username: string, password: string) returns (r: TokenResult)
      modifies this
      ensures config.passwordGrant && (username == "" || password == "") ==>
                r == Failure(ConfigurationError) && Abs() == old(Abs())
      ensures !(config.passwordGrant && (username == "" || password == "")) ==>
                && posts > old(posts)
                && var (mine, n) := (From(replies, old(posts)), posts - old(posts));
                   && CallIsRight(mine, config.maxRetries, n, r) && attemptIndex == n
                   && timerReadings == old(timerReadings) + 2 * n
                   && events == old(events) + EventsOf(mine, n)
                   && sleeps == old(sleeps) + Delays(0.5, n - 1)
    {
      if config.passwordGrant && !(username != "" && password != "") {
        return Failure(ConfigurationError);
      }
      var maxAttempts := config.maxRetries + 1;
      attemptIndex := 0;
      r := RetryCall(maxAttempts, BASE_DELAY);
      AttemptsAreAttempts(Temporaries(From(replies, old(posts))), 0, maxAttempts);
    }
  }

  // The number n of POSTs fits the replies, and the call returns what the last of them gives.
  ghost predicate CallIsRight(replies: nat -> Reply, maxRetries: nat, n: nat, r: TokenResult) {
    IsAttempts(Temporaries(replies), maxRetries + 1, n) && r == Outcome(replies(n - 1))
  }

  /** What a call of n POSTs is, from its replies, statuses and bodies: every reply but the last is a
      network failure, 408, 429 or at least 500; the last one decides what is returned; the i-th event
      has retry count i and tells which of these it was; the sleeps have their closed form and bound;
      and the max_attempts error is never raised. */
  lemma EventsTellTheCall(replies: nat -> Reply, maxRetries: nat, base: real, n: nat, r: TokenResult)
    requires CallIsRight(replies, maxRetries, n, r)
    ensures 1 <= n <= maxRetries + 1
    ensures var events := EventsOf(replies, n);
            && |events| == n && (forall i :: 0 <= i < n ==> events[i].retryCount == i)
            && (forall i :: 0 <= i < n - 1 ==> events[i].kind == TemporarilyFailed && IsPassing(replies(i)))
            && (events[n - 1].kind == Succeeded <==> r.Success?)
            && (events[n - 1].kind == TemporarilyFailed <==> r == Failure(TemporaryError))
    ensures var last := replies(n - 1);
            && (forall token :: r == Success(token) <==> Grants(last, token))
            && (r == Failure(TemporaryError) <==> n == maxRetries + 1 && IsPassing(last))
            && (r.Failure? ==> r.error in {TemporaryError, AuthenticationError, PermanentError})
            && (r == Failure(AuthenticationError) <==> last.Replied? && last.status in {400, 401, 403})
            && (IsPassing(last) ==> n == maxRetries + 1)
    ensures Total(Delays(base, n - 1)) == base * (Pow2(n - 1) as real - 1.0)
    ensures base >= 0.0 ==> Total(Delays(base, n - 1)) <= base * (Pow2(maxRetries) as real - 1.0)
    ensures r != Failure(InvalidMaxAttempts)
  {
    forall i | 0 <= i < n - 1
      ensures IsTemporary(replies(i)) && IsPassing(replies(i))
    {
      assert Temporaries(replies)(i);
    }
    GeometricTotal(base, Delays(base, n - 1));
    if base >= 0.0 {
      BackoffTotal(base, Delays(base, n - 1), n, maxRetries + 1);
    }
  }
}
