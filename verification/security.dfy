/** Token claim assembly, token lifetimes and API-key issuance. Signing,
    verification, password hashing and digests are opaque: they are passed in
    as functions, so every property below holds whatever those functions are. */
module Security {
  import opened Outcomes
  import opened Text
  import opened Models

  /** The settings the token codec and the authenticator read. */
  datatype Settings = Settings(
    accessTokenExpireMinutes: int,
    refreshTokenExpireDays: int,
    apiKeyPrefix: string)

  /** The defaults the settings loader falls back on. */
  const DefaultSettings: Settings := Settings(30, 7, "lms_")

  const AccessType: string := "access"
  const RefreshType: string := "refresh"

  /** A claim value as it comes out of a decoded token: JSON strings, integers,
      booleans and null; arrays and objects are `Other`, carrying their `str()`. */
  datatype ClaimValue = Str(s: string) | Int(n: int) | Bool(b: bool) | Null | Other(text: string)

  type Claims = map<string, ClaimValue>

  /** `jwt.encode` under the configured secret and algorithm. */
  type Signer = Claims -> string

  /** `jwt.decode` at the moment of the request: `None` for a bad signature, a
      malformed token or an expired one. */
  type Decoder = string -> Option<Claims>

  /** The claims `_create_token` adds on top of the caller's. */
  const RegisteredClaims: set<string> := {"exp", "iat", "type"}

  /** `claims.get(key)`. */
  function Get(claims: Claims, key: string): Option<ClaimValue> {
    if key in claims then Some(claims[key]) else None
  }

  /** `claims.get(key) is None`: the key is absent or holds JSON null. */
  predicate Missing(claims: Claims, key: string) {
    key !in claims || claims[key] == Null
  }

  /** `int(v)` for a claim value; `None` is the ValueError or TypeError. */
  function ToInt(v: ClaimValue): Option<int> {
    match v
    case Str(s) => ParseInt(s)
    case Int(n) => Some(n)
    case Bool(b) => Some(if b then 1 else 0)
    case Null => None
    case Other(_) => None
  }

  /** `str(v)` for a claim value. */
  function ToStr(v: ClaimValue): string {
    match v
    case Str(s) => s
    case Int(n) => IntToString(n)
    case Bool(b) => if b then "True" else "False"
    case Null => "None"
    case Other(t) => t
  }

  /** The payload `_create_token` signs: a copy of the caller's claims with
      `exp`, `iat` and `type` written over it. */
  function TokenClaims(data: Claims, expiresDelta: int, tokenType: string, now: int): (c: Claims)
    ensures c.Keys == data.Keys + RegisteredClaims
    ensures c["iat"] == Int(now) && c["type"] == Str(tokenType)
    ensures c["exp"].Int? && c["exp"].n == c["iat"].n + expiresDelta
    ensures forall k :: k in data && k !in RegisteredClaims ==> c[k] == data[k]
  {
    data + map["exp" := Int(now + expiresDelta), "iat" := Int(now), "type" := Str(tokenType)]
  }

  /** The payload of `create_access_token`. */
  function AccessClaims(settings: Settings, data: Claims, now: int): (c: Claims)
    ensures Get(c, "type") == Some(Str(AccessType))
    ensures Get(c, "exp") == Some(Int(now + settings.accessTokenExpireMinutes * SecondsPerMinute))
    ensures forall k :: k in data && k !in RegisteredClaims ==> Get(c, k) == Some(data[k])
  {
    TokenClaims(data, settings.accessTokenExpireMinutes * SecondsPerMinute, AccessType, now)
  }

  /** The payload of `create_refresh_token`. */
  function RefreshClaims(settings: Settings, data: Claims, now: int): (c: Claims)
    ensures Get(c, "type") == Some(Str(RefreshType))
    ensures Get(c, "exp") == Some(Int(now + settings.refreshTokenExpireDays * SecondsPerDay))
    ensures forall k :: k in data && k !in RegisteredClaims ==> Get(c, k) == Some(data[k])
  {
    TokenClaims(data, settings.refreshTokenExpireDays * SecondsPerDay, RefreshType, now)
  }

  /** Under the default settings an access token lives 30 minutes (1800 s) and
      a refresh token 7 days (604800 s). */
  lemma DefaultLifetimes(data: Claims, now: int)
    ensures Get(AccessClaims(DefaultSettings, data, now), "exp") == Some(Int(now + 1800))
    ensures Get(RefreshClaims(DefaultSettings, data, now), "exp") == Some(Int(now + 604800))
  {
  }

  function CreateAccessToken(settings: Settings, sign: Signer, data: Claims, now: int): string {
    sign(AccessClaims(settings, data, now))
  }

  function CreateRefreshToken(settings: Settings, sign: Signer, data: Claims, now: int): string {
    sign(RefreshClaims(settings, data, now))
  }

  /** `decode_token`: every failure of the decoder is the one error `InvalidToken`. */
  function DecodeToken(decode: Decoder, token: string): (r: Result<Claims>)
    ensures r.Err? ==> r.error == InvalidToken
    ensures r.Err? <==> decode(token).None?
    ensures r.Ok? ==> decode(token) == Some(r.value)
  {
    match decode(token)
    case None => Err(InvalidToken)
    case Some(claims) => Ok(claims)
  }

  /** The time claims python-jose reads with `int()` are integers where present. */
  predicate TimesAreIntegers(c: Claims) {
    && ("exp" in c ==> c["exp"].Int?)
    && ("nbf" in c ==> c["nbf"].Int?)
    && ("iat" in c ==> c["iat"].Int?)
  }

  /** The checks on the claims a caller hands to `_create_token`, which it does
      not overwrite: `nbf` reached, `sub` and `jti` strings, no `aud` (no
      audience is configured) and no `at_hash` (no access token is passed). */
  predicate CallerClaimsPass(data: Claims, t: int) {
    && ("nbf" in data ==> data["nbf"].Int? && data["nbf"].n <= t)
    && ("sub" in data ==> data["sub"].Str?)
    && ("jti" in data ==> data["jti"].Str?)
    && "aud" !in data && "at_hash" !in data
  }

  /** python-jose's claim validation at time `t`, with no leeway, passes: the
      caller's claims pass, `exp` has not gone by, and `iat` is an integer. */
  predicate Accepted(c: Claims, t: int) {
    && TimesAreIntegers(c)
    && ("exp" in c ==> t <= c["exp"].n)
    && CallerClaimsPass(c, t)
  }

  /** `jwt.decode` at time `t` on a token this codec signed whose time claims
      are integers: the claims come back if validation passes, and the token is
      refused (expired, not yet valid, wrong audience, ...) otherwise. Tokens of
      any other shape are left unconstrained. */
  ghost predicate DecodesAt(sign: Signer, decode: Decoder, t: int) {
    forall c: Claims {:trigger decode(sign(c))} :: TimesAreIntegers(c) ==>
      decode(sign(c)) == (if Accepted(c, t) then Some(c) else None)
  }

  /** Distinct claim sets sign to distinct tokens, as a JWT encoder that embeds
      the payload in the token does. */
  ghost predicate Injective(sign: Signer) {
    forall c1: Claims, c2: Claims :: sign(c1) == sign(c2) ==> c1 == c2
  }

  /** `c` is the claim set of `token`, signed by `sign`, and passes validation at `t`. */
  ghost predicate LiveAt(sign: Signer, t: int, token: string, c: Claims) {
    sign(c) == token && Accepted(c, t)
  }

  /** A decoder that answers the claims of a token signed by `sign` that passes
      validation at `t`, and refuses everything else. */
  ghost function CheckingDecoder(sign: Signer, t: int): Decoder {
    (token: string) =>
      if exists c :: LiveAt(sign, t, token, c) then Some(var c :| LiveAt(sign, t, token, c); c) else None
  }

  /** `DecodesAt` is consistent: every injective signer has a decoder that meets it. */
  lemma DecodesAtIsRealizable(sign: Signer, t: int)
    requires Injective(sign)
    ensures DecodesAt(sign, CheckingDecoder(sign, t), t)
  {
    var decode := CheckingDecoder(sign, t);
    forall c: Claims | TimesAreIntegers(c)
      ensures decode(sign(c)) == (if Accepted(c, t) then Some(c) else None)
    {
      if Accepted(c, t) {
        assert LiveAt(sign, t, sign(c), c);
      }
    }
  }

  /** An access token decodes to the claims it was created with exactly while
      its lifetime lasts and the caller's claims pass validation; otherwise it
      is `InvalidToken`. */
  lemma AccessTokenLifetime(settings: Settings, sign: Signer, decode: Decoder, data: Claims, now: int, t: int)
    requires DecodesAt(sign, decode, t)
    ensures ("nbf" in data ==> data["nbf"].Int?) ==>
      DecodeToken(decode, CreateAccessToken(settings, sign, data, now))
        == if t <= now + settings.accessTokenExpireMinutes * SecondsPerMinute && CallerClaimsPass(data, t)
           then Ok(AccessClaims(settings, data, now)) else Err(InvalidToken)
  {
    var c := AccessClaims(settings, data, now);
    if "nbf" in data ==> data["nbf"].Int? {
      assert TimesAreIntegers(c);
      assert Accepted(c, t) <==> t <= now + settings.accessTokenExpireMinutes * SecondsPerMinute && CallerClaimsPass(data, t);
    }
  }

  /** A refresh token decodes to the claims it was created with exactly while
      its lifetime lasts and the caller's claims pass validation; otherwise it
      is `InvalidToken`. */
  lemma RefreshTokenLifetime(settings: Settings, sign: Signer, decode: Decoder, data: Claims, now: int, t: int)
    requires DecodesAt(sign, decode, t)
    ensures ("nbf" in data ==> data["nbf"].Int?) ==>
      DecodeToken(decode, CreateRefreshToken(settings, sign, data, now))
        == if t <= now + settings.refreshTokenExpireDays * SecondsPerDay && CallerClaimsPass(data, t)
           then Ok(RefreshClaims(settings, data, now)) else Err(InvalidToken)
  {
    var c := RefreshClaims(settings, data, now);
    if "nbf" in data ==> data["nbf"].Int? {
      assert TimesAreIntegers(c);
      assert Accepted(c, t) <==> t <= now + settings.refreshTokenExpireDays * SecondsPerDay && CallerClaimsPass(data, t);
    }
  }

  /** `hash_api_key`: the digest of the whole key, prefix included. */
  function HashApiKey(digest: string -> string, rawKey: string): string {
    digest(rawKey)
  }

  /** `generate_api_key`: the prefixed raw key, shown once, and the digest that is stored.
      `randomHex` stands for the hex digest of fresh random bytes. */
  function GenerateApiKey(settings: Settings, digest: string -> string, randomHex: string): (r: (string, string))
    ensures StartsWith(r.0, settings.apiKeyPrefix)
    ensures r.0[|settings.apiKeyPrefix|..] == randomHex
    ensures r.1 == HashApiKey(digest, r.0)
  {
    var raw := settings.apiKeyPrefix + randomHex;
    (raw, HashApiKey(digest, raw))
  }
}
