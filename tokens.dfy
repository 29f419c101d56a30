/**
 * The one-time token store of `src/lib/token-manager.ts`: a map from token to the
 * URL it stands for, when it was issued, and whether it has been redeemed. The
 * clock (`Date.now()`) and the fresh identifier (`uuidv4()`) are parameters.
 */
module Tokens {
  import opened Wrappers

  datatype TokenData = TokenData(url: string, createdAt: int, used: bool)

  /** Thirty minutes, in milliseconds. */
  const TokenExpiration: int := 30 * 60 * 1000

  /** The age check: strictly more than thirty minutes old. */
  predicate Expired(d: TokenData, now: int) {
    now - d.createdAt > TokenExpiration
  }

  /** What the sweep removes: expired or already redeemed. */
  predicate Stale(d: TokenData, now: int) {
    Expired(d, now) || d.used
  }

  /** The map after `createToken(url)` returned `token`. */
  function Issued(m: map<string, TokenData>, token: string, url: string, now: int): (r: map<string, TokenData>)
    ensures r.Keys == m.Keys + {token}
    ensures r[token] == TokenData(url, now, false)
    ensures forall k :: k in m && k != token ==> r[k] == m[k]
  {
    m[token := TokenData(url, now, false)]
  }

  /** The result of `getUrlByToken` and the map it leaves behind. */
  datatype Lookup = Lookup(url: Option<string>, tokens: map<string, TokenData>)

  /** `getUrlByToken(token)`: unknown tokens miss; an expired entry is deleted and
      misses; a redeemed entry misses and stays; otherwise the entry is marked used
      and its URL returned. */
  function Redeemed(m: map<string, TokenData>, token: string, now: int): (r: Lookup)
    ensures r.url.Some? <==> token in m && !Stale(m[token], now)
    ensures r.url.Some? ==> r.url.value == m[token].url
    ensures r.tokens.Keys <= m.Keys
    ensures token in m && !Expired(m[token], now) ==> token in r.tokens
    ensures token in m && Expired(m[token], now) ==> token !in r.tokens
    ensures forall k :: k in m && k != token ==> k in r.tokens && r.tokens[k] == m[k]
    ensures forall k :: k in r.tokens ==> r.tokens[k] == m[k].(used := m[k].used || k == token)
  {
    if token !in m then Lookup(None, m)
    else if Expired(m[token], now) then Lookup(None, m - {token})
    else if m[token].used then Lookup(None, m)
    else Lookup(Some(m[token].url), m[token := m[token].(used := true)])
  }

  /** `cleanExpiredTokens()`: the entries that are neither expired nor used. */
  function Swept(m: map<string, TokenData>, now: int): (r: map<string, TokenData>)
    ensures r.Keys <= m.Keys
    ensures forall k :: k in r ==> r[k] == m[k] && !Stale(r[k], now)
  {
    map k | k in m && !Stale(m[k], now) :: m[k]
  }

  /** The sweep deletes exactly the stale entries and keeps the rest as they were. */
  lemma SweptExactly(m: map<string, TokenData>, now: int)
    ensures forall k :: k in Swept(m, now) <==> k in m && !Stale(m[k], now)
    ensures forall k :: k in Swept(m, now) ==> Swept(m, now)[k] == m[k]
    ensures Swept(m, now) == m <==> forall k :: k in m ==> !Stale(m[k], now)
  {
    var r := Swept(m, now);
    if r == m {
      forall k | k in m ensures !Stale(m[k], now) {
        assert k in r;
      }
    }
  }

  /** After a sweep nothing is stale, so a second sweep at the same time is a no-op. */
  lemma SweepIdempotent(m: map<string, TokenData>, now: int)
    ensures forall k :: k in Swept(m, now) ==> !Stale(Swept(m, now)[k], now)
    ensures Swept(Swept(m, now), now) == Swept(m, now)
  {
    var r := Swept(m, now);
    assert Swept(r, now).Keys == r.Keys;
  }

  /** A fresh token redeems once, within thirty minutes inclusive, to its URL; every
      later attempt misses. */
  lemma SingleUse(m: map<string, TokenData>, token: string, url: string, issuedAt: int, first: int, later: int)
    requires token !in m
    requires first - issuedAt <= TokenExpiration
    ensures Redeemed(Issued(m, token, url, issuedAt), token, first).url == Some(url)
    ensures Redeemed(Redeemed(Issued(m, token, url, issuedAt), token, first).tokens, token, later).url == None
  {
  }

  /** Once redeemed, a token misses forever, whatever else is issued in between. */
  lemma NoSecondRedemption(m: map<string, TokenData>, token: string, now: int, other: string, url: string, t: int, later: int)
    requires Redeemed(m, token, now).url.Some?
    requires other != token
    ensures Redeemed(Issued(Redeemed(m, token, now).tokens, other, url, t), token, later).url == None
  {
  }

  /** A token older than thirty minutes never redeems, even unused, and is deleted. */
  lemma ExpiredNeverRedeems(m: map<string, TokenData>, token: string, now: int)
    requires token in m && Expired(m[token], now)
    ensures Redeemed(m, token, now).url == None
    ensures token !in Redeemed(m, token, now).tokens
  {
  }

  class TokenManager {
    var tokens: map<string, TokenData>

    /** A store with nothing loaded from storage. */
    constructor ()
      ensures tokens == map[]
    {
      tokens := map[];
    }

    /** `createToken(url)`, with `token` the fresh identifier `uuidv4()` produced. */
    method CreateToken(url: string, token: string, now: int) returns (t: string)
      requires token !in tokens
      modifies this
      ensures t == token
      ensures tokens == Issued(old(tokens), token, url, now)
    {
      tokens := tokens[token := TokenData(url, now, false)];
      t := token;
    }

    /** `getUrlByToken(token)`, `None` standing for `null`. */
    method GetUrlByToken(token: string, now: int) returns (url: Option<string>)
      modifies this
      ensures Lookup(url, tokens) == Redeemed(old(tokens), token, now)
    {
      if token !in tokens {
        return None;
      }
      var data := tokens[token];
      if now - data.createdAt > TokenExpiration {
        tokens := tokens - {token};
        return None;
      }
      if data.used {
        return None;
      }
      tokens := tokens[token := data.(used := true)];
      url := Some(data.url);
    }

    /** `cleanExpiredTokens()`; `changed` is the `hasChanges` flag that decides
        whether the map is written back to storage. */
    method CleanExpiredTokens(now: int) returns (changed: bool)
      modifies this
      ensures tokens == Swept(old(tokens), now)
      ensures changed <==> exists k :: k in old(tokens) && Stale(old(tokens)[k], now)
    {
      var pending := tokens.Keys;
      changed := false;
      while pending != {}
        invariant pending <= old(tokens).Keys
        invariant tokens == map k | k in old(tokens) && (k in pending || !Stale(old(tokens)[k], now)) :: old(tokens)[k]
        invariant changed <==> exists k :: k in old(tokens) && k !in pending && Stale(old(tokens)[k], now)
        decreases pending
      {
        var token :| token in pending;
        var data := tokens[token];
        if now - data.createdAt > TokenExpiration || data.used {
          tokens := tokens - {token};
          changed := true;
        }
        pending := pending - {token};
      }
    }
  }
}
