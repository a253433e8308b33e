/** Request authentication (bearer token first, then API key) and the
    permission check that guards each route. */
module Deps {
  import opened Outcomes
  import opened Text
  import opened Tables
  import opened Models
  import opened Permissions
  import opened Security

  /** A header that is present and non-empty (Python truthiness of `str | None`). */
  predicate Truthy(header: Option<string>) {
    header.Some? && header.value != ""
  }

  /** The Authorization header carries a bearer token: it starts with
      `bearer ` in any letter case. */
  predicate IsBearer(authorization: Option<string>) {
    Truthy(authorization) && StartsWith(Lower(authorization.value), "bearer ")
  }

  /** `authorization.split(" ", 1)[1]`: everything after the first space. */
  function BearerToken(header: string): (token: string)
    requires StartsWith(Lower(header), "bearer ")
    ensures |token| < |header|
    ensures FirstOccurrence(header, ' ', |header| - |token| - 1)
    ensures token == header[|header| - |token|..]
  {
    assert forall j :: 0 <= j < 6 ==> LowerChar(header[j]) == "bearer "[j] != ' ';
    header[7..]
  }

  /** `id` names an existing, active user. */
  predicate ActiveUser(db: Db, id: int) {
    id in db.users && db.users[id].isActive
  }

  /** The bearer-token branch of `get_current_user`. */
  function TokenUser(decode: Decoder, db: Db, token: string): (r: Result<User>)
    ensures decode(token).None? ==> r == Err(InvalidToken)
    ensures decode(token).Some? && Get(decode(token).value, "type") != Some(Str(AccessType)) ==>
      r == Err(Unauthenticated("Invalid token type"))
    ensures (decode(token).Some? && Get(decode(token).value, "type") == Some(Str(AccessType))
             && Missing(decode(token).value, "sub")) ==> r == Err(Unauthenticated("Invalid token payload"))
    ensures r.Ok? <==>
      decode(token).Some? && Get(decode(token).value, "type") == Some(Str(AccessType))
      && !Missing(decode(token).value, "sub")
      && var id := ToInt(decode(token).value["sub"]); id.Some? && ActiveUser(db, id.value)
    ensures r.Ok? ==> r.value == db.users[ToInt(decode(token).value["sub"]).value]
  {
    match DecodeToken(decode, token)
    case Err(e) => Err(e)
    case Ok(claims) =>
      if Get(claims, "type") != Some(Str(AccessType)) then Err(Unauthenticated("Invalid token type"))
      else if Missing(claims, "sub") then Err(Unauthenticated("Invalid token payload"))
      else
        match ToInt(claims["sub"])
        case None => Err(MalformedSubject)
        case Some(id) =>
          if ActiveUser(db, id) then Ok(db.users[id])
          else Err(Unauthenticated("User not found or inactive"))
  }

  /** The active key rows whose stored digest is `keyHash`. */
  predicate ActiveKeyWithHash(key: ApiKey, keyHash: string) {
    key.keyHash == keyHash && key.isActive
  }

  /** The API-key branch of `get_current_user`. */
  function ApiKeyUser(settings: Settings, digest: string -> string, db: Db, header: string): (r: Result<User>)
    ensures !StartsWith(header, settings.apiKeyPrefix) ==> r == Err(Unauthenticated("Invalid API key prefix"))
    ensures r.Ok? <==>
      StartsWith(header, settings.apiKeyPrefix)
      && exists id :: id in db.apiKeys && ActiveKeyWithHash(db.apiKeys[id], HashApiKey(digest, header))
                      && ActiveUser(db, db.apiKeys[id].userId)
                      && forall j :: j in db.apiKeys && ActiveKeyWithHash(db.apiKeys[j], HashApiKey(digest, header)) ==> j == id
    ensures r.Ok? ==> r.value in db.users.Values && r.value.isActive
  {
    if !StartsWith(header, settings.apiKeyPrefix) then Err(Unauthenticated("Invalid API key prefix"))
    else
      var keyHash := HashApiKey(digest, header);
      match FindRow(db.apiKeys, key => ActiveKeyWithHash(key, keyHash))
      case NoRow => Err(Unauthenticated("Invalid or inactive API key"))
      case ManyRows => Err(MultipleResultsFound)
      case OneRow(id) =>
        var owner := db.apiKeys[id].userId;
        if ActiveUser(db, owner) then Ok(db.users[owner])
        else Err(Unauthenticated("User not found or inactive"))
  }

  /** `get_current_user`: a bearer token if the Authorization header names one,
      otherwise an API key if one is sent, otherwise no identity. */
  function Authenticate(
    settings: Settings, decode: Decoder, digest: string -> string, db: Db,
    authorization: Option<string>, apiKey: Option<string>): (r: Result<User>)
    ensures IsBearer(authorization) ==> r == TokenUser(decode, db, BearerToken(authorization.value))
    ensures !IsBearer(authorization) && Truthy(apiKey) ==> r == ApiKeyUser(settings, digest, db, apiKey.value)
    ensures !IsBearer(authorization) && !Truthy(apiKey) ==> r == Err(Unauthenticated("Not authenticated"))
    ensures r.Ok? ==> r.value in db.users.Values && r.value.isActive
  {
    if IsBearer(authorization) then TokenUser(decode, db, BearerToken(authorization.value))
    else if Truthy(apiKey) then ApiKeyUser(settings, digest, db, apiKey.value)
    else Err(Unauthenticated("Not authenticated"))
  }

  /** `get_current_active_user`. */
  function RequireActive(user: User): (r: Result<User>)
    ensures r.Ok? <==> user.isActive
    ensures r.Ok? ==> r.value == user
    ensures !user.isActive ==> r == Err(BadRequest("Inactive user"))
  {
    if !user.isActive then Err(BadRequest("Inactive user")) else Ok(user)
  }

  /** `role.permissions or "[]"`: empty text reads as the empty list. */
  function PermissionText(role: Role): string {
    if role.permissions == "" then "[]" else role.permissions
  }

  /** The permission values a role's stored JSON text grants; text that does
      not parse grants nothing. `loads` is `set(json.loads(text))`. */
  function AssignedPermissions(loads: string -> Option<set<string>>, role: Role): (r: set<string>)
    ensures loads(PermissionText(role)).None? ==> r == {}
    ensures loads(PermissionText(role)).Some? ==> r == loads(PermissionText(role)).value
  {
    match loads(PermissionText(role))
    case None => {}
    case Some(values) => values
  }

  /** The values of the required permissions the granted set lacks, in order. */
  function MissingPermissions(required: seq<Permission>, granted: set<string>): (missing: seq<string>)
    ensures missing == [] <==> forall i :: 0 <= i < |required| ==> Value(required[i]) in granted
    ensures forall v :: v in missing ==> v !in granted
    ensures forall v :: v in missing ==> exists i :: 0 <= i < |required| && Value(required[i]) == v
  {
    if required == [] then []
    else
      var rest := MissingPermissions(required[1..], granted);
      if Value(required[0]) in granted then rest else [Value(required[0])] + rest
  }

  /** The dependency `require_permissions(required)` builds. */
  function RequirePermissions(
    loads: string -> Option<set<string>>, db: Db, user: User, required: seq<Permission>): (r: Result<User>)
    ensures RoleOf(db, user).None? ==> r == Err(Forbidden("User has no role"))
    ensures r.Ok? <==> (RoleOf(db, user).Some? &&
      forall i :: 0 <= i < |required| ==> Value(required[i]) in AssignedPermissions(loads, RoleOf(db, user).value))
    ensures r.Ok? ==> r.value == user
    ensures r.Err? ==> r.error.Forbidden?
  {
    match RoleOf(db, user)
    case None => Err(Forbidden("User has no role"))
    case Some(role) =>
      if MissingPermissions(required, AssignedPermissions(loads, role)) != [] then
        Err(Forbidden("Insufficient permissions"))
      else Ok(user)
  }

  /** A route guarded by `require_permissions(required)`: authenticate, insist on
      an active user, then check permissions. */
  function Authorize(
    settings: Settings, decode: Decoder, digest: string -> string,
    loads: string -> Option<set<string>>, db: Db,
    authorization: Option<string>, apiKey: Option<string>, required: seq<Permission>): (r: Result<User>)
    ensures var auth := Authenticate(settings, decode, digest, db, authorization, apiKey);
      && (auth.Err? ==> r == auth)
      && (auth.Ok? ==> r == RequirePermissions(loads, db, auth.value, required))
      && (r.Ok? <==> auth.Ok? && RequirePermissions(loads, db, auth.value, required).Ok?)
    ensures r.Err? ==> !r.error.BadRequest?
    ensures r.Ok? ==> Authenticate(settings, decode, digest, db, authorization, apiKey) == r
  {
    match Authenticate(settings, decode, digest, db, authorization, apiKey)
    case Err(e) => Err(e)
    case Ok(user) =>
      match RequireActive(user)
      case Err(e) => Err(e)
      case Ok(active) => RequirePermissions(loads, db, active, required)
  }

  // ---- properties of the authenticator ----

  /** With a bearer header the API-key header is never read and nothing is hashed. */
  lemma BearerIsExclusive(
    settings: Settings, decode: Decoder, digest1: string -> string, digest2: string -> string, db: Db,
    authorization: Option<string>, apiKey1: Option<string>, apiKey2: Option<string>)
    requires IsBearer(authorization)
    ensures Authenticate(settings, decode, digest1, db, authorization, apiKey1)
         == Authenticate(settings, decode, digest2, db, authorization, apiKey2)
  {
  }

  /** An Authorization header that is not a bearer token is ignored. */
  lemma NonBearerFallsThrough(
    settings: Settings, decode: Decoder, digest: string -> string, db: Db,
    authorization: Option<string>, apiKey: Option<string>)
    requires !IsBearer(authorization)
    ensures Authenticate(settings, decode, digest, db, authorization, apiKey)
         == Authenticate(settings, decode, digest, db, None, apiKey)
  {
  }

  /** A key without the configured prefix is refused before any digest is taken:
      the outcome is the same whatever the digest function. */
  lemma PrefixCheckedBeforeHashing(
    settings: Settings, decode: Decoder, digest: string -> string, db: Db,
    authorization: Option<string>, apiKey: string)
    requires !IsBearer(authorization) && apiKey != ""
    requires !StartsWith(apiKey, settings.apiKeyPrefix)
    ensures Authenticate(settings, decode, digest, db, authorization, Some(apiKey))
         == Err(Unauthenticated("Invalid API key prefix"))
  {
  }

  /** `get_current_active_user`'s own check never fires after `get_current_user`. */
  lemma AuthenticatedUsersAreActive(
    settings: Settings, decode: Decoder, digest: string -> string, db: Db,
    authorization: Option<string>, apiKey: Option<string>)
    requires Authenticate(settings, decode, digest, db, authorization, apiKey).Ok?
    ensures RequireActive(Authenticate(settings, decode, digest, db, authorization, apiKey).value).Ok?
  {
  }

  /** An empty permission text grants what the text `[]` grants. */
  lemma EmptyTextReadsAsEmptyList(loads: string -> Option<set<string>>, role: Role)
    requires role.permissions == ""
    ensures AssignedPermissions(loads, role) == AssignedPermissions(loads, role.(permissions := "[]"))
  {
  }

  /** A role whose text does not parse grants nothing: the check passes only
      when nothing is required, and is "Insufficient permissions" otherwise. */
  lemma UnparsableRoleGrantsNothing(
    loads: string -> Option<set<string>>, db: Db, user: User, required: seq<Permission>)
    requires user.roleId in db.roles
    requires loads(PermissionText(db.roles[user.roleId])).None?
    ensures RequirePermissions(loads, db, user, required)
         == if required == [] then Ok(user) else Err(Forbidden("Insufficient permissions"))
  {
    if required != [] {
      assert Value(required[0]) !in AssignedPermissions(loads, db.roles[user.roleId]);
    }
  }

  /** A key freshly issued by `generate_api_key`, stored as the only active row
      with its digest for an active user, authenticates that user. */
  lemma {:induction false} GeneratedKeyAuthenticates(
    settings: Settings, decode: Decoder, digest: string -> string, db: Db,
    randomHex: string, keyId: int, authorization: Option<string>)
    requires randomHex != ""
    requires !IsBearer(authorization)
    requires keyId in db.apiKeys
    requires ActiveKeyWithHash(db.apiKeys[keyId], GenerateApiKey(settings, digest, randomHex).1)
    requires forall j :: j in db.apiKeys && ActiveKeyWithHash(db.apiKeys[j], GenerateApiKey(settings, digest, randomHex).1) ==> j == keyId
    requires ActiveUser(db, db.apiKeys[keyId].userId)
    ensures Authenticate(settings, decode, digest, db, authorization, Some(GenerateApiKey(settings, digest, randomHex).0))
         == Ok(db.users[db.apiKeys[keyId].userId])
  {
    var (raw, keyHash) := GenerateApiKey(settings, digest, randomHex);
    assert |raw| > 0;
    FindRowUnique(db.apiKeys, key => ActiveKeyWithHash(key, keyHash), keyId);
  }
}
