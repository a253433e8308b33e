/** Login and token refresh. */
module AuthService {
  import opened Outcomes
  import opened Text
  import opened Tables
  import opened Models
  import opened Security
  import Deps

  datatype TokenPair = TokenPair(accessToken: string, refreshToken: string)

  /** The one error both login failures share, so that a caller cannot tell an
      unknown user from a wrong password. */
  const BadCredentials: Error := Unauthenticated("Incorrect username or password")

  /** `{"sub": sub}`. */
  function SubjectClaims(sub: string): Claims {
    map["sub" := Str(sub)]
  }

  /** An access token and a refresh token for the same subject. */
  function IssuePair(settings: Settings, sign: Signer, sub: string, now: int): TokenPair {
    TokenPair(
      CreateAccessToken(settings, sign, SubjectClaims(sub), now),
      CreateRefreshToken(settings, sign, SubjectClaims(sub), now))
  }

  /** `login`. `verify` is `verify_password(plain, hashed)`. */
  function Login(
    settings: Settings, sign: Signer, verify: (string, string) -> bool, now: int,
    db: Db, username: string, password: string): (r: Result<TokenPair>)
    ensures (forall id :: id in db.users ==> !HasUsername(db.users[id], username)) ==> r == Err(BadCredentials)
    ensures r.Err? ==> r.error == BadCredentials || r.error == MultipleResultsFound
    ensures r == Err(MultipleResultsFound) ==>
      exists a, b :: a in db.users && b in db.users && a != b
                     && HasUsername(db.users[a], username) && HasUsername(db.users[b], username)
    ensures r.Ok? <==> (exists id :: id in db.users && HasUsername(db.users[id], username)
                          && db.users[id].isActive && verify(password, db.users[id].hashedPassword)
                          && (forall j :: j in db.users && HasUsername(db.users[j], username) ==> j == id))
    ensures r.Ok? ==> (exists id :: id in db.users && HasUsername(db.users[id], username)
                         && r.value == IssuePair(settings, sign, IntToString(db.users[id].id), now))
  {
    match FindRow(db.users, UsernameIs(username))
    case ManyRows => Err(MultipleResultsFound)
    case NoRow => Err(BadCredentials)
    case OneRow(id) =>
      var user := db.users[id];
      if !user.isActive then Err(BadCredentials)
      else if !verify(password, user.hashedPassword) then Err(BadCredentials)
      else Ok(IssuePair(settings, sign, IntToString(user.id), now))
  }

  /** `refresh`: only a refresh token with a subject is accepted; both tokens are
      re-issued for `str(sub)` without consulting the user table. */
  function Refresh(settings: Settings, sign: Signer, decode: Decoder, now: int, token: string): (r: Result<TokenPair>)
    ensures decode(token).None? ==> r == Err(InvalidToken)
    ensures decode(token).Some? && Get(decode(token).value, "type") != Some(Str(RefreshType)) ==>
      r == Err(Unauthenticated("Invalid token type"))
    ensures r.Ok? <==> (decode(token).Some? && Get(decode(token).value, "type") == Some(Str(RefreshType))
                        && !Missing(decode(token).value, "sub"))
    ensures r.Ok? ==> r.value == IssuePair(settings, sign, ToStr(decode(token).value["sub"]), now)
  {
    match DecodeToken(decode, token)
    case Err(e) => Err(e)
    case Ok(claims) =>
      if Get(claims, "type") != Some(Str(RefreshType)) then Err(Unauthenticated("Invalid token type"))
      else if Missing(claims, "sub") then Err(Unauthenticated("Invalid token payload"))
      else Ok(IssuePair(settings, sign, ToStr(claims["sub"]), now))
  }

  // ---- how the issued tokens are received ----

  /** Primary keys agree with the `id` column. */
  predicate UserKeysAreIds(db: Db) {
    forall id :: id in db.users ==> db.users[id].id == id
  }

  lemma LowerPrefix(t: string)
    ensures StartsWith(Lower("Bearer " + t), "bearer ")
  {
    var s := "Bearer " + t;
    assert Lower(s)[..7] == "bearer " by {
      forall i | 0 <= i < 7 ensures Lower(s)[i] == "bearer "[i] {
        assert s[i] == "Bearer "[i];
      }
    }
  }

  /** The pair issued for `sub` at `now`, decoded at time `t`: each token is
      accepted exactly until its own lifetime has passed, carries `sub`, and
      has its own type. */
  lemma IssuedPairCarriesSubject(settings: Settings, sign: Signer, decode: Decoder, sub: string, now: int, t: int)
    requires DecodesAt(sign, decode, t)
    ensures var pair := IssuePair(settings, sign, sub, now);
      var access := DecodeToken(decode, pair.accessToken);
      var refresh := DecodeToken(decode, pair.refreshToken);
      && (access.Ok? <==> t <= now + settings.accessTokenExpireMinutes * SecondsPerMinute)
      && (refresh.Ok? <==> t <= now + settings.refreshTokenExpireDays * SecondsPerDay)
      && (access.Ok? ==> Get(access.value, "sub") == Some(Str(sub)) && Get(access.value, "type") == Some(Str(AccessType)))
      && (refresh.Ok? ==> Get(refresh.value, "sub") == Some(Str(sub)) && Get(refresh.value, "type") == Some(Str(RefreshType)))
  {
    AccessTokenLifetime(settings, sign, decode, SubjectClaims(sub), now, t);
    RefreshTokenLifetime(settings, sign, decode, SubjectClaims(sub), now, t);
  }

  /** The access token a successful login hands out, sent back as
      `Authorization: Bearer <token>` at time `t` within its lifetime while the
      user is still active, authenticates that same user: `str(user.id)` reads
      back as `user.id`. */
  lemma {:induction false} LoginThenAuthenticate(
    settings: Settings, sign: Signer, decode: Decoder, digest: string -> string,
    verify: (string, string) -> bool, now: int, t: int, db: Db, username: string, password: string,
    apiKey: Option<string>)
    requires DecodesAt(sign, decode, t)
    requires t <= now + settings.accessTokenExpireMinutes * SecondsPerMinute
    requires UserKeysAreIds(db)
    requires Login(settings, sign, verify, now, db, username, password).Ok?
    ensures var pair := Login(settings, sign, verify, now, db, username, password).value;
      var r := Deps.Authenticate(settings, decode, digest, db, Some("Bearer " + pair.accessToken), apiKey);
      r.Ok? && HasUsername(r.value, username)
  {
    var pair := Login(settings, sign, verify, now, db, username, password).value;
    var id :| id in db.users && HasUsername(db.users[id], username)
      && db.users[id].isActive && verify(password, db.users[id].hashedPassword)
      && (forall j :: j in db.users && HasUsername(db.users[j], username) ==> j == id);
    assert pair == IssuePair(settings, sign, IntToString(id), now);
    AccessTokenAuthenticates(settings, sign, decode, digest, now, t, db, id, apiKey);
  }

  /** The access token issued at `now` for an active user's id, sent as a bearer
      credential at time `t`, authenticates that user within its lifetime and is
      `InvalidToken` after it. */
  lemma {:induction false} AccessTokenAuthenticates(
    settings: Settings, sign: Signer, decode: Decoder, digest: string -> string,
    now: int, t: int, db: Db, id: int, apiKey: Option<string>)
    requires DecodesAt(sign, decode, t)
    requires id in db.users && db.users[id].isActive
    ensures var token := CreateAccessToken(settings, sign, SubjectClaims(IntToString(id)), now);
      Deps.Authenticate(settings, decode, digest, db, Some("Bearer " + token), apiKey)
        == if t <= now + settings.accessTokenExpireMinutes * SecondsPerMinute then Ok(db.users[id]) else Err(InvalidToken)
  {
    var token := CreateAccessToken(settings, sign, SubjectClaims(IntToString(id)), now);
    var header := "Bearer " + token;
    LowerPrefix(token);
    assert Deps.BearerToken(header) == token;
    AccessTokenLifetime(settings, sign, decode, SubjectClaims(IntToString(id)), now, t);
    var claims := AccessClaims(settings, SubjectClaims(IntToString(id)), now);
    assert claims["sub"] == Str(IntToString(id));
    IntRoundTrip(id);
  }

  /** A login's refresh token presented as a bearer credential at time `t` is
      refused: for its type while it is unexpired, as `InvalidToken` after. */
  lemma RefreshTokenIsNotAccess(
    settings: Settings, sign: Signer, decode: Decoder, digest: string -> string,
    verify: (string, string) -> bool, now: int, t: int, db: Db, username: string, password: string,
    apiKey: Option<string>)
    requires DecodesAt(sign, decode, t)
    requires Login(settings, sign, verify, now, db, username, password).Ok?
    ensures var pair := Login(settings, sign, verify, now, db, username, password).value;
      Deps.Authenticate(settings, decode, digest, db, Some("Bearer " + pair.refreshToken), apiKey)
        == if t <= now + settings.refreshTokenExpireDays * SecondsPerDay
           then Err(Unauthenticated("Invalid token type")) else Err(InvalidToken)
  {
    var pair := Login(settings, sign, verify, now, db, username, password).value;
    var id :| id in db.users && HasUsername(db.users[id], username)
      && pair == IssuePair(settings, sign, IntToString(db.users[id].id), now);
    RefreshTokenRefusedAsBearer(settings, sign, decode, digest, now, t, db, IntToString(db.users[id].id), apiKey);
  }

  /** A refresh token issued for `sub`, sent as a bearer credential at time `t`:
      "Invalid token type" within its lifetime, `InvalidToken` after. */
  lemma RefreshTokenRefusedAsBearer(
    settings: Settings, sign: Signer, decode: Decoder, digest: string -> string,
    now: int, t: int, db: Db, sub: string, apiKey: Option<string>)
    requires DecodesAt(sign, decode, t)
    ensures var token := CreateRefreshToken(settings, sign, SubjectClaims(sub), now);
      Deps.Authenticate(settings, decode, digest, db, Some("Bearer " + token), apiKey)
        == if t <= now + settings.refreshTokenExpireDays * SecondsPerDay
           then Err(Unauthenticated("Invalid token type")) else Err(InvalidToken)
  {
    var token := CreateRefreshToken(settings, sign, SubjectClaims(sub), now);
    LowerPrefix(token);
    assert Deps.BearerToken("Bearer " + token) == token;
    RefreshTokenLifetime(settings, sign, decode, SubjectClaims(sub), now, t);
  }

  /** A login's access token cannot be used to refresh at any time `later`:
      while it is unexpired it is refused for its type, afterwards as `InvalidToken`. */
  lemma AccessTokenCannotRefresh(
    settings: Settings, sign: Signer, decode: Decoder, verify: (string, string) -> bool,
    now: int, later: int, db: Db, username: string, password: string)
    requires DecodesAt(sign, decode, later)
    requires Login(settings, sign, verify, now, db, username, password).Ok?
    ensures Refresh(settings, sign, decode, later,
                    Login(settings, sign, verify, now, db, username, password).value.accessToken)
         == if later <= now + settings.accessTokenExpireMinutes * SecondsPerMinute
            then Err(Unauthenticated("Invalid token type")) else Err(InvalidToken)
  {
    var pair := Login(settings, sign, verify, now, db, username, password).value;
    var id :| id in db.users && HasUsername(db.users[id], username)
      && pair == IssuePair(settings, sign, IntToString(db.users[id].id), now);
    IssuedPairCarriesSubject(settings, sign, decode, IntToString(db.users[id].id), now, later);
  }

  /** Refreshing a login's refresh token at `later` re-issues, within its
      lifetime, exactly the pair login would issue at that moment (same subject,
      fresh lifetimes); after it the token is `InvalidToken`. */
  lemma RefreshKeepsSubject(
    settings: Settings, sign: Signer, decode: Decoder, verify: (string, string) -> bool,
    now: int, later: int, db: Db, username: string, password: string)
    requires DecodesAt(sign, decode, later)
    requires Login(settings, sign, verify, now, db, username, password).Ok?
    ensures Refresh(settings, sign, decode, later,
                    Login(settings, sign, verify, now, db, username, password).value.refreshToken)
         == if later <= now + settings.refreshTokenExpireDays * SecondsPerDay
            then Login(settings, sign, verify, later, db, username, password) else Err(InvalidToken)
  {
    var id :| id in db.users && HasUsername(db.users[id], username)
      && db.users[id].isActive && verify(password, db.users[id].hashedPassword)
      && (forall j :: j in db.users && HasUsername(db.users[j], username) ==> j == id);
    FindRowUnique(db.users, UsernameIs(username), id);
    var sub := IntToString(db.users[id].id);
    RefreshReissues(settings, sign, decode, now, later, sub);
  }

  /** A refresh token issued for `sub` at `now` and presented at `later` is
      exchanged for a new pair for `sub` within its lifetime, and refused as
      `InvalidToken` after it. */
  lemma RefreshReissues(settings: Settings, sign: Signer, decode: Decoder, now: int, later: int, sub: string)
    requires DecodesAt(sign, decode, later)
    ensures Refresh(settings, sign, decode, later, CreateRefreshToken(settings, sign, SubjectClaims(sub), now))
         == if later <= now + settings.refreshTokenExpireDays * SecondsPerDay
            then Ok(IssuePair(settings, sign, sub, later)) else Err(InvalidToken)
  {
    RefreshTokenLifetime(settings, sign, decode, SubjectClaims(sub), now, later);
    var claims := RefreshClaims(settings, SubjectClaims(sub), now);
    assert claims["sub"] == Str(sub);
  }

  /** `str()` at refresh then `int()` at authentication: a string or integer
      subject resolves to the same user id after a refresh as before it. */
  lemma {:induction false} RefreshedSubjectResolvesAlike(v: ClaimValue)
    requires v.Str? || v.Int?
    ensures ToInt(Str(ToStr(v))) == ToInt(v)
  {
    if v.Int? {
      IntRoundTrip(v.n);
    }
  }
}
