/** CachedTokenSource: the state behind its mutex, as pure functions for its three critical sections
    and as the class whose methods compute them. */
module TokenSource {
  import opened Wrappers
  import opened Utf8

  /** `expiresAt` is an instant in nanoseconds, like every other time here. */
  datatype Token = Token(accessToken: Bytes, tokenType: Bytes, requestID: Bytes, expiresAt: int)

  const NO_TOKEN: Token := Token("", "", "", 0)

  const REFRESH_BEFORE: int := 60_000_000_000

  predicate UsableAt(token: Token, now: int) {
    token.accessToken != "" && now < token.expiresAt - REFRESH_BEFORE
  }

  type Exchange = Result<Token, Bytes>

  /** A tokenRefresh: its channel is open, or closed with a result. */
  datatype Refresh = InFlight | Closed(result: Exchange)

  /** The fields behind the mutex.  Refreshes are named by the order in which they were started. */
  datatype Cache = Cache(cached: Token, refreshing: Option<nat>, refreshes: seq<Refresh>)

  const EMPTY: Cache := Cache(NO_TOKEN, None, [])

  /** What a caller finds in the first critical section of Token. */
  datatype Decision = Hit(token: Token) | Wait(refresh: nat) | Lead(refresh: nat)

  function Decide(c: Cache, now: int): Decision {
    if UsableAt(c.cached, now) then Hit(c.cached)
    else match c.refreshing
      case Some(r) => Wait(r)
      case None => Lead(|c.refreshes|)
  }

  /** The first critical section of Token. */
  function Enter(c: Cache, now: int): Cache {
    match Decide(c, now)
    case Lead(r) => c.(refreshing := Some(r), refreshes := c.refreshes + [InFlight])
    case _ => c
  }

  /** The second critical section of Token, by the caller that led refresh `r`. */
  function Publish(c: Cache, r: nat, result: Exchange): Cache
    requires r < |c.refreshes|
  {
    Cache(if result.Ok? then result.value else c.cached, None, c.refreshes[r := Closed(result)])
  }

  function Invalidate(c: Cache): Cache {
    c.(cached := NO_TOKEN)
  }

  class TokenRefresh {
    var closed: bool
    var result: Exchange

    constructor ()
      ensures !closed
    {
      closed, result := false, Err("");
    }

    function View(): Refresh
      reads this
    {
      if closed then Closed(result) else InFlight
    }

    /** The branch of the select that finds the channel closed. */
    method Receive() returns (r: Exchange)
      requires closed
      ensures View() == Closed(r)
    {
      return result;
    }
  }

  class CachedTokenSource {
    var cached: Token
    var refreshing: TokenRefresh?
    ghost var started: seq<TokenRefresh>
    ghost var current: Option<nat>

    ghost predicate Valid()
      reads this
    {
      && (forall i, j | 0 <= i < j < |started| :: started[i] != started[j])
      && match current
         case None => refreshing == null
         case Some(r) => r < |started| && refreshing == started[r]
    }

    /** The abstract cache this object stands for. */
    ghost function At(): Cache
      reads this, started
    {
      Cache(cached, current, seq(|started|, i requires 0 <= i < |started| reads this, started => started[i].View()))
    }

    constructor ()
      ensures Valid() && At() == EMPTY
    {
      cached, refreshing := NO_TOKEN, null;
      started, current := [], None;
    }

    /** The critical section at the top of Token: a usable token, or the refresh to wait for or lead. */
    method EnterToken(now: int) returns (hit: Option<Token>, refresh: TokenRefresh?, leads: bool)
      requires Valid()
      modifies this
      ensures Valid() && At() == Enter(old(At()), now)
      ensures old(started) <= started
      ensures match Decide(old(At()), now)
              case Hit(token) => hit == Some(token)
              case Wait(r) => hit == None && !leads && r < |started| && refresh == started[r]
              case Lead(r) => hit == None && leads && r < |started| && refresh == started[r] && fresh(refresh)
    {
      if UsableAt(cached, now) {
        return Some(cached), null, false;
      }
      if refreshing != null {
        return None, refreshing, false;
      }
      refresh := new TokenRefresh();
      current, started := Some(|started|), started + [refresh];
      refreshing := refresh;
      return None, refresh, true;
    }

    /** The critical section at the bottom of Token, entered by the leader of refresh `r`. */
    method PublishResult(refresh: TokenRefresh, ghost r: nat, result: Exchange)
      requires Valid() && r < |started| && refresh == started[r] && !refresh.closed
      modifies this, refresh
      ensures Valid() && started == old(started) && At() == Publish(old(At()), r, result)
      ensures refresh.View() == Closed(result)
    {
      refresh.result := result;
      if result.Ok? {
        cached := result.value;
      }
      refresh.closed := true;
      refreshing, current := null, None;
    }

    method InvalidateToken()
      requires Valid()
      modifies this
      ensures Valid() && started == old(started) && At() == Invalidate(old(At()))
    {
      cached := NO_TOKEN;
    }
  }
}
