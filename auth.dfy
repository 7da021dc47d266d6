/**
 * The authentication decisions of the loan API: looking an administrator
 * up, checking a login, building the claims of an access token and
 * checking the token presented on a protected request.
 *
 * Password verification and token signing are library calls whose
 * internals are not modelled: they are function-valued parameters
 * (`verify` for the password check, `encode`/`decode` for signing and
 * verifying a token, where `decode` answers None for every token the
 * library refuses: bad signature, malformed payload, expired `exp`).
 */
module Auth {
  import opened Results
  import opened RestModels
  import opened DbModels
  import opened DbHelpers

  /** `get_user`: the first administrator with this username, as an `Admin` carrying the stored hash. */
  function GetUser(admins: seq<AdminUser>, username: string): (r: Option<Admin>)
    ensures r.None? <==> forall i :: 0 <= i < |admins| ==> admins[i].username != username
    ensures r.Some? ==> r.value.username == username
    ensures r.Some? ==> exists i :: 0 <= i < |admins| && admins[i].username == username
                                    && admins[i].password == r.value.password
                                    && forall j :: 0 <= j < i ==> admins[j].username != username
  {
    match FirstAdminNamed(admins, username)
    case Some(i) => Some(Admin(admins[i].username, admins[i].password))
    case None => None
  }

  /** In a table with unique usernames, looking a stored administrator up finds that administrator. */
  lemma GetUserFindsStored(admins: seq<AdminUser>, i: nat)
    requires UniqueUsernames(admins)
    requires i < |admins|
    ensures GetUser(admins, admins[i].username) == Some(Admin(admins[i].username, admins[i].password))
  {
    FirstAdminNamedUnique(admins, i);
  }

  /** `authenticate_user`: the stored administrator when the username exists and the password verifies. */
  function AuthenticateUser(admins: seq<AdminUser>, username: string, password: string,
                            verify: (string, string) -> bool): (r: Option<Admin>)
    ensures r.Some? ==> r == GetUser(admins, username)
    ensures r.None? <==> GetUser(admins, username).None? || !verify(password, GetUser(admins, username).value.password)
  {
    var user := GetUser(admins, username);
    if user.None? then None
    else if !verify(password, user.value.password) then None
    else user
  }

  /**
   * With unique usernames, a login succeeds exactly when some stored
   * administrator has the username and a hash the password verifies against.
   */
  lemma AuthenticateUserIff(admins: seq<AdminUser>, username: string, password: string,
                            verify: (string, string) -> bool)
    requires UniqueUsernames(admins)
    ensures AuthenticateUser(admins, username, password, verify).Some?
        <==> exists i :: 0 <= i < |admins| && admins[i].username == username && verify(password, admins[i].password)
  {
    if i :| 0 <= i < |admins| && admins[i].username == username {
      GetUserFindsStored(admins, i);
    }
  }

  // ----------------------------------------------------------------- tokens

  /** A claim of a token payload; `Instant` is a date-time in microseconds. */
  datatype Claim = Text(s: string) | Instant(micros: int) | Null

  type Claims = map<string, Claim>

  /** `timedelta(minutes=15)`, in microseconds. */
  const DefaultExpiry: int := 15 * 60 * 1_000_000

  /**
   * The payload `create_access_token` signs: a copy of `data` with `exp`
   * set to `now` plus the given window. A window that is absent or zero is
   * falsy and gets the 15-minute default; a negative one is truthy.
   */
  function AccessTokenClaims(data: Claims, expiresDelta: Option<int>, now: int): (r: Claims)
    ensures r.Keys == data.Keys + {"exp"}
    ensures forall k :: k in data && k != "exp" ==> r[k] == data[k]
    ensures expiresDelta.Some? && expiresDelta.value != 0 ==> r["exp"] == Instant(now + expiresDelta.value)
    ensures expiresDelta.None? || expiresDelta == Some(0) ==> r["exp"] == Instant(now + DefaultExpiry)
  {
    var expire := if expiresDelta.Some? && expiresDelta.value != 0 then now + expiresDelta.value
                  else now + DefaultExpiry;
    data["exp" := Instant(expire)]
  }

  /** `create_access_token`: the signed payload. */
  function CreateAccessToken(data: Claims, expiresDelta: Option<int>, now: int, encode: Claims -> string): string {
    encode(AccessTokenClaims(data, expiresDelta, now))
  }

  /**
   * A token the signing library reads back carries `data` unchanged beside
   * its expiry, and expires 15 minutes after `now` unless a non-zero window
   * is given.
   */
  lemma CreatedTokenCarriesClaims(data: Claims, expiresDelta: Option<int>, now: int,
                                  encode: Claims -> string, decode: string -> Option<Claims>)
    requires decode(encode(AccessTokenClaims(data, expiresDelta, now))) == Some(AccessTokenClaims(data, expiresDelta, now))
    ensures decode(CreateAccessToken(data, expiresDelta, now, encode)).Some?
    ensures var claims := decode(CreateAccessToken(data, expiresDelta, now, encode)).value;
      && claims.Keys == data.Keys + {"exp"}
      && (forall k :: k in data && k != "exp" ==> claims[k] == data[k])
      && claims["exp"] == Instant(now + if expiresDelta.Some? && expiresDelta.value != 0 then expiresDelta.value
                                        else DefaultExpiry)
  {
  }

  /** An HTTP error carried by a raised `HTTPException`. */
  datatype HttpError = HttpError(status: int, detail: string)

  /** The 401 answer of every failed credentials check. */
  const CredentialsException := HttpError(401, "Could not validate credentials")

  /** `check_credentials`: the token must decode, carry a `sub`, and name a stored administrator. */
  function CheckCredentials(token: string, admins: seq<AdminUser>, decode: string -> Option<Claims>)
    : (r: Outcome<HttpError>)
    ensures r.Fail? ==> r.error == CredentialsException
    ensures r.Pass? <==>
      && decode(token).Some?
      && "sub" in decode(token).value
      && decode(token).value["sub"].Text?
      && exists i :: 0 <= i < |admins| && admins[i].username == decode(token).value["sub"].s
  {
    match decode(token)
    case None => Fail(CredentialsException)
    case Some(payload) =>
      if "sub" !in payload || !payload["sub"].Text? then Fail(CredentialsException)
      else if GetUser(admins, payload["sub"].s).None? then Fail(CredentialsException)
      else Pass
  }

  /**
   * A token issued for `username`, while the signing library accepts it,
   * passes the credentials check exactly when an administrator with that
   * username is stored.
   */
  lemma IssuedTokenChecks(admins: seq<AdminUser>, username: string, expiresDelta: Option<int>, now: int,
                          encode: Claims -> string, decode: string -> Option<Claims>)
    requires decode(encode(AccessTokenClaims(map["sub" := Text(username)], expiresDelta, now)))
             == Some(AccessTokenClaims(map["sub" := Text(username)], expiresDelta, now))
    ensures CheckCredentials(CreateAccessToken(map["sub" := Text(username)], expiresDelta, now, encode), admins, decode).Pass?
        <==> exists i :: 0 <= i < |admins| && admins[i].username == username
  {
    var claims := AccessTokenClaims(map["sub" := Text(username)], expiresDelta, now);
    assert "sub" in map["sub" := Text(username)];
    assert claims["sub"] == Text(username);
  }

  /**
   * The login flow: when a login succeeds, the token issued for the
   * logged-in username passes the credentials check.
   */
  lemma LoginGrantsAccess(admins: seq<AdminUser>, username: string, password: string,
                          verify: (string, string) -> bool, expiresDelta: Option<int>, now: int,
                          encode: Claims -> string, decode: string -> Option<Claims>)
    requires AuthenticateUser(admins, username, password, verify).Some?
    requires decode(encode(AccessTokenClaims(map["sub" := Text(username)], expiresDelta, now)))
             == Some(AccessTokenClaims(map["sub" := Text(username)], expiresDelta, now))
    ensures CheckCredentials(CreateAccessToken(map["sub" := Text(username)], expiresDelta, now, encode), admins, decode).Pass?
  {
    IssuedTokenChecks(admins, username, expiresDelta, now, encode, decode);
  }

  /**
   * Sign-up then login: once `add_new_admin` has stored a new administrator
   * with a hash their password verifies against, logging in with that
   * username and password returns the stored administrator.
   */
  lemma SignUpThenLogIn(admins: seq<AdminUser>, user: Admin, hashed: string, verify: (string, string) -> bool)
    requires AdminIdsIncreasing(admins)
    requires forall i :: 0 <= i < |admins| ==> admins[i].username != user.username
    requires verify(user.password, hashed)
    ensures AuthenticateUser(admins + [AdminUser(NextAdminId(admins), user.username, hashed)],
                             user.username, user.password, verify)
         == Some(Admin(user.username, hashed))
  {
    var stored := admins + [AdminUser(NextAdminId(admins), user.username, hashed)];
    assert stored[|admins|].username == user.username;
    assert forall j :: 0 <= j < |admins| ==> stored[j] == admins[j];
  }
}
