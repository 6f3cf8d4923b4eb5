/** Access-token expiry bookkeeping. The cache is one optional entry with its
    own lifetime, the Google client is a parameter reporting whether its token
    has expired and which token it fetches, and the clock is a parameter. */
module TokenManager {
  import opened Wrappers

  /** A token is refreshed this many seconds before it expires. */
  const TokenBuffer: int := 300

  /** The lifetime assumed when the token data gives none. */
  const DefaultExpiresIn: int := 3600

  /** The cache entry lives seven days. */
  const CacheLifetime: int := 604800

  /** The cached token data. */
  datatype Token = Token(accessToken: string, refreshToken: Option<string>, expiresAt: int)

  /** The cache slot: the token and the time the entry expires. */
  datatype Cache = Cache(entry: Option<(Token, int)>)

  /** The token data an OAuth response carries. */
  datatype TokenData = TokenData(accessToken: string, refreshToken: Option<string>, expiresIn: Option<int>)

  /** The Google client: whether its access token has expired, and the token
      data it holds after fetching one with the refresh token. */
  datatype AuthClient = AuthClient(expired: bool, fetched: TokenData)

  /** `Cache::get`: the token while the entry is alive. */
  function Lookup(cache: Cache, now: int): (t: Option<Token>)
    ensures t.Some? <==> cache.entry.Some? && now < cache.entry.value.1
    ensures t.Some? ==> t.value == cache.entry.value.0
  {
    match cache.entry
    case Some((token, until)) => if now < until then Some(token) else None
    case None => None
  }

  /** `storeToken`: the token expires `expires_in` seconds from now (an hour
      if absent), and the entry lives seven days. */
  function StoreToken(data: TokenData, now: int): (c: Cache)
    ensures forall t :: now <= t < now + CacheLifetime ==>
              Lookup(c, t) == Some(Token(data.accessToken, data.refreshToken, now + data.expiresIn.GetOr(DefaultExpiresIn)))
    ensures forall t :: t >= now + CacheLifetime ==> Lookup(c, t).None?
  {
    Cache(Some((Token(data.accessToken, data.refreshToken, now + data.expiresIn.GetOr(DefaultExpiresIn)),
                now + CacheLifetime)))
  }

  /** `shouldRefreshToken`: no cached token, or one within five minutes of
      expiring. */
  predicate ShouldRefresh(cache: Cache, now: int) {
    match Lookup(cache, now)
    case None => true
    case Some(token) => token.expiresAt - TokenBuffer <= now
  }

  /** A refresh is due without a cached entry, once the entry has lapsed, or
      once the token has expired; when none is due, a token with more than
      the buffer left is served. */
  lemma ShouldRefreshCases(cache: Cache, now: int)
    ensures cache.entry.None? || now >= cache.entry.value.1 ==> ShouldRefresh(cache, now)
    ensures cache.entry.Some? && cache.entry.value.0.expiresAt <= now ==> ShouldRefresh(cache, now)
    ensures !ShouldRefresh(cache, now) ==>
              Lookup(cache, now).Some? && Lookup(cache, now).value.expiresAt > now + TokenBuffer
  {
  }

  /** Storing a token fixes when the next refresh falls due: at any time,
      once the cache entry has lapsed, or once the token is within the buffer
      of the expiry it was stored with. */
  lemma StoreThenShouldRefresh(data: TokenData, stored: int, now: int)
    ensures ShouldRefresh(StoreToken(data, stored), now) <==>
              now >= stored + CacheLifetime || stored + data.expiresIn.GetOr(DefaultExpiresIn) - TokenBuffer <= now
  {
  }

  /** Once due, a refresh stays due as time passes. */
  lemma ShouldRefreshMonotone(cache: Cache, t1: int, t2: int)
    requires t1 <= t2 && ShouldRefresh(cache, t1)
    ensures ShouldRefresh(cache, t2)
  {
  }

  /** Right after storing a token that lives longer than the buffer, no
      refresh is due. */
  lemma FreshTokenNeedsNoRefresh(data: TokenData, now: int)
    requires data.expiresIn.GetOr(DefaultExpiresIn) > TokenBuffer
    ensures !ShouldRefresh(StoreToken(data, now), now)
  {
  }

  /** `refreshIfNeeded`: when a refresh is due and the client reports its
      token expired, fetch a new one and store it; otherwise the cache is
      left as it is. */
  function RefreshIfNeeded(cache: Cache, client: AuthClient, now: int): (c: Cache)
    ensures !ShouldRefresh(cache, now) ==> c == cache
    ensures ShouldRefresh(cache, now) && !client.expired ==> c == cache
    ensures ShouldRefresh(cache, now) && client.expired ==> c == StoreToken(client.fetched, now)
  {
    if ShouldRefresh(cache, now) && client.expired then StoreToken(client.fetched, now) else cache
  }

  /** A refresh that fetches a token living longer than the buffer settles
      the cache: no refresh is due afterwards. */
  lemma RefreshSettles(cache: Cache, client: AuthClient, now: int)
    requires client.expired && client.fetched.expiresIn.GetOr(DefaultExpiresIn) > TokenBuffer
    ensures !ShouldRefresh(RefreshIfNeeded(cache, client, now), now)
  {
  }

  /** When the cache says a refresh is due but the client does not consider
      its token expired, nothing is stored, so the next call finds a refresh
      still due. */
  lemma UnexpiredClientLeavesRefreshDue(cache: Cache, client: AuthClient, now: int, later: int)
    requires ShouldRefresh(cache, now) && !client.expired && now <= later
    ensures ShouldRefresh(RefreshIfNeeded(cache, client, now), later)
  {
    ShouldRefreshMonotone(cache, now, later);
  }
}
