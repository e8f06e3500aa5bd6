/** Request authentication: the bearer token is cut out of the
    `Authorization` header, verified by Firebase, and turned into an
    authenticated user whose role is clamped to the three known roles.
    Firebase's token verification is a parameter: it either yields the
    decoded claims or fails. */
module Auth {
  import opened Common
  import opened PyStrings

  /** The caller of a request, as the routes see it. */
  datatype AuthenticatedUser = AuthenticatedUser(uid: string, email: Option<string>, role: Option<string>)

  const BearerPrefix: string := "Bearer "

  const Unauthorized: HttpError := HttpError(401, "Unauthorized")
  const Forbidden: HttpError := HttpError(403, "Forbidden")

  // ---------------------------------------------------------------------
  // Service-account credentials

  /** The literal two-character sequences `\n` and `\r`. */
  const EscapedNewline: string := ['\\', 'n']
  const EscapedReturn: string := ['\\', 'r']

  /** A private key as it comes out of an environment variable: escaped
      line breaks become real ones, quotes are dropped and surrounding
      whitespace is removed. A missing or empty key is left alone. */
  function CleanPrivateKey(key: Option<string>): (r: Option<string>)
    ensures IsEmpty(key) ==> r == key
    ensures !IsEmpty(key) ==> r.Some?
  {
    if IsEmpty(key) then key
    else
      var k := key.value;
      Some(Strip(ReplaceAll(ReplaceAll(ReplaceAll(k, EscapedNewline, "\n"), EscapedReturn, "\n"), "\"", "")))
  }

  /** A cleaned key holds no quote and no surrounding whitespace. */
  lemma CleanedKeyShape(key: Option<string>)
    requires !IsEmpty(key)
    ensures var r := CleanPrivateKey(key).value;
      '"' !in r && (r == [] || (!IsSpace(r[0]) && !IsSpace(r[|r| - 1])))
  {
    var k := key.value;
    var t := ReplaceAll(ReplaceAll(k, EscapedNewline, "\n"), EscapedReturn, "\n");
    ReplaceCharGone(t, '"', "");
    assert "\"" == ['"'];
    StripKeepsOut(ReplaceAll(t, "\"", ""), '"');
  }

  /** A key with no escaped line break, no quote and no surrounding
      whitespace is used as it is. */
  lemma CleanPlainKey(k: string)
    requires k != []
    requires !Contains(k, EscapedNewline) && !Contains(k, EscapedReturn) && !Contains(k, "\"")
    requires !IsSpace(k[0]) && !IsSpace(k[|k| - 1])
    ensures CleanPrivateKey(Some(k)) == Some(k)
  {
    ReplaceAllAbsent(k, EscapedNewline, "\n");
    ReplaceAllAbsent(k, EscapedReturn, "\n");
    ReplaceAllAbsent(k, "\"", "");
    StripUnchanged(k);
  }

  /** The credential the Firebase app is initialised with. */
  datatype Credential =
    | ServiceAccount(projectId: string, clientEmail: string, privateKey: string)
    | ApplicationDefault

  /** A service account is used only when the project id, the client email
      and the cleaned private key are all non-empty; otherwise the
      application-default credentials are. */
  function ChooseCredential(projectId: Option<string>, clientEmail: Option<string>, privateKey: Option<string>): (c: Credential)
    ensures c.ServiceAccount? <==>
      !IsEmpty(projectId) && !IsEmpty(clientEmail) && !IsEmpty(CleanPrivateKey(privateKey))
    ensures c.ServiceAccount? ==>
      c == ServiceAccount(projectId.value, clientEmail.value, CleanPrivateKey(privateKey).value)
  {
    var key := CleanPrivateKey(privateKey);
    if !IsEmpty(projectId) && !IsEmpty(clientEmail) && !IsEmpty(key) then
      ServiceAccount(projectId.value, clientEmail.value, key.value)
    else ApplicationDefault
  }

  // ---------------------------------------------------------------------
  // Tokens and users

  /** The token of an `Authorization` header: the header must be present,
      non-empty and start with `Bearer `; every occurrence of `Bearer ` is
      then removed from it. So the token is what follows the prefix, with
      every later occurrence removed as well, and is never longer than that. */
  function BearerToken(header: Option<string>): (r: Result<string, HttpError>)
    ensures r.Err? <==> IsEmpty(header) || !StartsWith(header.value, BearerPrefix)
    ensures r.Err? ==> r.error == Unauthorized
    ensures r.Ok? ==> r.value == ReplaceAll(header.value[|BearerPrefix|..], BearerPrefix, "")
    ensures r.Ok? ==> |r.value| <= |header.value| - |BearerPrefix|
  {
    if IsEmpty(header) || !StartsWith(header.value, BearerPrefix) then Err(Unauthorized)
    else
      var h := header.value;
      assert h[..|BearerPrefix|] == BearerPrefix;
      ReplaceAllDeleteShorter(h[|BearerPrefix|..], BearerPrefix);
      Ok(ReplaceAll(h, BearerPrefix, ""))
  }

  /** When `Bearer ` occurs only as the prefix, the token is the rest of the
      header. */
  lemma BearerTokenIsRest(t: string)
    requires !Contains(t, BearerPrefix)
    ensures BearerToken(Some(BearerPrefix + t)) == Ok(t)
  {
    var h := BearerPrefix + t;
    assert h[..|BearerPrefix|] == BearerPrefix;
    assert h[|BearerPrefix|..] == t;
    assert StartsWith(h, BearerPrefix);
    ReplaceAllAbsent(t, BearerPrefix, "");
    assert ReplaceAll(h, BearerPrefix, "") == "" + ReplaceAll(t, BearerPrefix, "");
    assert ReplaceAll(h, BearerPrefix, "") == t;
    assert !IsEmpty(Some(h));
  }

  /** The role a user is given: `admin` and `pm` are kept, every other
      hashable value becomes `user`. A list or an object cannot be looked up
      in a set, which is an internal error. */
  function ClampRole(raw: Json): (r: Result<string, HttpError>)
    ensures r.Err? <==> raw.JArr? || raw.JObj?
    ensures r.Ok? ==> r.value in {"admin", "pm", "user"}
    ensures r.Ok? && raw.JStr? && raw.s in {"admin", "pm"} ==> r.value == raw.s
    ensures r.Ok? && !(raw.JStr? && raw.s in {"admin", "pm"}) ==> r.value == "user"
  {
    if raw.JArr? || raw.JObj? then Err(HttpError(500, "TypeError"))
    else if raw.JStr? && raw.s in {"admin", "pm"} then Ok(raw.s)
    else Ok("user")
  }

  /** The optional `email` claim as an `Optional[str]` field; a value of any
      other type fails validation. */
  function EmailClaim(raw: Json): (r: Result<Option<string>, HttpError>)
    ensures raw.JNull? ==> r == Ok(None)
    ensures raw.JStr? ==> r == Ok(Some(raw.s))
    ensures r.Err? <==> !raw.JNull? && !raw.JStr?
  {
    match raw
    case JNull => Ok(None)
    case JStr(s) => Ok(Some(s))
    case _ => Err(HttpError(500, "ValidationError"))
  }

  /** Verifies a token and builds the user from its claims. A failed
      verification is 401; a role claim that cannot be looked up and a uid
      or email of the wrong type are internal errors. */
  function DecodeToken(token: string, verify: string -> Option<map<string, Json>>): (r: Result<AuthenticatedUser, HttpError>)
    ensures verify(token).None? ==> r == Err(Unauthorized)
    ensures r.Ok? ==>
      verify(token).Some? &&
      var claims := JObj(verify(token).value);
      Get(claims, "uid") == JStr(r.value.uid) &&
      EmailClaim(Get(claims, "email")) == Ok(r.value.email) &&
      r.value.role.Some? && ClampRole(Get(claims, "role")) == Ok(r.value.role.value)
    ensures verify(token).Some? && r.Err? ==>
      var claims := JObj(verify(token).value);
      ClampRole(Get(claims, "role")).Err? || !Get(claims, "uid").JStr? || EmailClaim(Get(claims, "email")).Err?
  {
    match verify(token)
    case None => Err(Unauthorized)
    case Some(fields) =>
      var claims := JObj(fields);
      match ClampRole(Get(claims, "role"))
      case Err(e) => Err(e)
      case Ok(role) =>
        var uid := Get(claims, "uid");
        if !uid.JStr? then Err(HttpError(500, "ValidationError"))
        else
          match EmailClaim(Get(claims, "email"))
          case Err(e) => Err(e)
          case Ok(email) => Ok(AuthenticatedUser(uid.s, email, Some(role)))
  }

  /** The `get_current_user` dependency. */
  function CurrentUser(header: Option<string>, verify: string -> Option<map<string, Json>>): (r: Result<AuthenticatedUser, HttpError>)
    ensures BearerToken(header).Err? ==> r == Err(Unauthorized)
    ensures BearerToken(header).Ok? ==> r == DecodeToken(BearerToken(header).value, verify)
    ensures r.Ok? ==> r.value.role.Some? && r.value.role.value in {"admin", "pm", "user"}
  {
    match BearerToken(header)
    case Err(e) => Err(e)
    case Ok(token) => DecodeToken(token, verify)
  }

  /** The `require_admin` dependency: only an admin passes, unchanged. */
  function RequireAdmin(user: AuthenticatedUser): (r: Result<AuthenticatedUser, HttpError>)
    ensures r.Ok? <==> user.role == Some("admin")
    ensures r.Ok? ==> r.value == user
    ensures r.Err? ==> r.error == Forbidden
  {
    if user.role != Some("admin") then Err(Forbidden) else Ok(user)
  }

  /** A signed-in admin passes the admin check; a signed-in caller whose
      claims give any other role is refused with 403. */
  lemma AdminIffAdminClaim(header: Option<string>, verify: string -> Option<map<string, Json>>)
    requires CurrentUser(header, verify).Ok?
    ensures var token := BearerToken(header).value;
      RequireAdmin(CurrentUser(header, verify).value).Ok? <==>
      Get(JObj(verify(token).value), "role") == JStr("admin")
  {
  }
}
