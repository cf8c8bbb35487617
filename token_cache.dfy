/**
  The access-token cache (backend/fetch-gigs/app.js, lines 12-52): a token read
  from the parameter store is reused for an hour, measured from the moment
  before the read.
 */
module TokenCaching {
  import opened Wrappers

  /** What reading the parameter store produced: a value ("" when the
      parameter has no value), no parameter at all, or a failed call. */
  datatype SecretOutcome = Value(value: string) | NoValue | FetchError(message: string)

  /** The two fields of the cache; `None` is `null`. */
  datatype CacheState = CacheState(token: Option<string>, expiresAt: Option<int>)

  /** One hour, in milliseconds. */
  const TokenLifetime := 60 * 60 * 1000

  const TokenError := "Failed to retrieve Facebook access token"

  /** The cache answers when both fields are truthy and `now` is before the expiry. */
  predicate IsHit(s: CacheState, now: int) {
    && s.token.Some? && s.token.value != ""
    && s.expiresAt.Some? && s.expiresAt.value != 0
    && now < s.expiresAt.value
  }

  /** Either both fields are `null`, or the cache holds a non-empty token and its expiry. */
  predicate WellFormed(s: CacheState) {
    && (s.token.Some? <==> s.expiresAt.Some?)
    && (s.token.Some? ==> s.token.value != "")
  }

  /** The result of one call to `getFacebookAccessToken`: what it returns or
      throws, the cache afterwards, and whether the store was read. */
  datatype TokenStep = TokenStep(result: Result<string>, next: CacheState, fetched: bool)

  /** One call to `getFacebookAccessToken` at time `now`, with `outcome` the
      answer the store would give if it were read. */
  function GetTokenStep(s: CacheState, now: int, outcome: SecretOutcome): (t: TokenStep)
    ensures t.result.Ok? ==> t.result.value != ""
    ensures t.next != s ==> t.fetched && t.result.Ok? && t.next.token == Some(t.result.value)
  {
    if IsHit(s, now) then TokenStep(Ok(s.token.value), s, false)
    else match outcome
      case Value(v) =>
        if v != "" then TokenStep(Ok(v), CacheState(Some(v), Some(now + TokenLifetime)), true)
        else TokenStep(Err(TokenError), s, true)
      case _ => TokenStep(Err(TokenError), s, true)
  }

  /** A hit returns the cached token without reading the store. */
  lemma HitSkipsStore(s: CacheState, now: int, outcome: SecretOutcome)
    requires IsHit(s, now)
    ensures GetTokenStep(s, now, outcome) == TokenStep(Ok(s.token.value), s, false)
  {
  }

  /** A miss reads the store; a non-empty value is returned and cached for an
      hour from `now`, anything else throws and leaves the cache as it was. */
  lemma MissReadsStore(s: CacheState, now: int, outcome: SecretOutcome)
    requires !IsHit(s, now)
    ensures var t := GetTokenStep(s, now, outcome);
            && t.fetched
            && (outcome.Value? && outcome.value != "" ==>
                  t.result == Ok(outcome.value) && t.next == CacheState(Some(outcome.value), Some(now + TokenLifetime)))
            && (!(outcome.Value? && outcome.value != "") ==> t.result == Err(TokenError) && t.next == s)
  {
  }

  /** The cache stays well formed. */
  lemma StepKeepsWellFormed(s: CacheState, now: int, outcome: SecretOutcome)
    requires WellFormed(s)
    ensures WellFormed(GetTokenStep(s, now, outcome).next)
  {
  }

  /** A token read at `now` answers every later call before `now` + one hour,
      whatever the store would say then, and stops answering from that moment on. */
  lemma ReusedForAnHour(s: CacheState, now: int, outcome: SecretOutcome, later: int, laterOutcome: SecretOutcome)
    requires GetTokenStep(s, now, outcome).fetched && GetTokenStep(s, now, outcome).result.Ok?
    requires now + TokenLifetime != 0
    requires now <= later
    ensures var first := GetTokenStep(s, now, outcome);
            var second := GetTokenStep(first.next, later, laterOutcome);
            (later < now + TokenLifetime <==> !second.fetched)
            && (later < now + TokenLifetime ==> second.result == first.result && second.next == first.next)
  {
  }

  /** The module-level `tokenCache` object. */
  class TokenCache {
    var token: Option<string>
    var expiresAt: Option<int>

    function State(): CacheState
      reads this
    {
      CacheState(token, expiresAt)
    }

    ghost predicate Valid()
      reads this
    {
      WellFormed(State())
    }

    /** The cache as the module starts it: both fields `null`. */
    constructor()
      ensures State() == CacheState(None, None)
      ensures Valid()
    {
      token := None;
      expiresAt := None;
    }

    /** `getFacebookAccessToken` at time `now`; `outcome` is what the store
        answers if it is read, and `fetched` tells whether it was. */
    method GetToken(now: int, outcome: SecretOutcome) returns (r: Result<string>, fetched: bool)
      requires Valid()
      modifies this
      ensures Valid()
      ensures var t := GetTokenStep(old(State()), now, outcome);
              r == t.result && fetched == t.fetched && State() == t.next
    {
      if token.Some? && token.value != "" && expiresAt.Some? && expiresAt.value != 0 && now < expiresAt.value {
        return Ok(token.value), false;
      }
      fetched := true;
      if outcome.Value? && outcome.value != "" {
        token, expiresAt := Some(outcome.value), Some(now + TokenLifetime);
        r := Ok(outcome.value);
      } else {
        r := Err(TokenError);
      }
    }
  }
}
