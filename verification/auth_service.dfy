/**
 Login, registration, current-user lookup and the JWT the login issues
 (TennisBuddy.Application/Services/AuthService.cs). BCrypt and the JWT
 library are supplied from outside as a `Crypto` value; the properties that
 depend on them are stated under `Sound`.
 */
module AuthService {
  import opened Text
  import opened Domain
  import opened Mapping
  import opened UserRepository

  /** The claims a login token carries: the user's id, email and name, valid
      from the issue time until seven days later. */
  datatype Claims = Claims(
    nameIdentifier: string,
    email: string,
    name: string,
    notBefore: Instant,
    expires: Instant)

  /** A decoded JWT: its claims and its signature. */
  datatype Token = Token(claims: Claims, signature: string)

  /** The outside primitives: BCrypt (`hash` with a salt, `verify`), the
      HMAC-SHA256 signature over the claims, and the JWT text encoding. */
  datatype Crypto = Crypto(
    hash: (string, string) -> string,
    verify: (string, string) -> bool,
    sign: (string, Claims) -> string,
    encode: Token -> string,
    decode: string -> Option<Token>)

  /** What the libraries promise: a password verifies against any hash of it,
      and a written token reads back as itself. */
  ghost predicate Sound(k: Crypto)
  {
    && (forall salt, password :: k.verify(password, k.hash(salt, password)))
    && (forall t :: k.decode(k.encode(t)) == Some(t))
  }

  /** `AddDays(7)`, in seconds. */
  const TokenLifetime: int := 7 * 24 * 60 * 60

  /** The login response. */
  datatype LoginResponse = LoginResponse(token: string, user: UserDto)

  /** `HashPassword`: BCrypt with the salt it draws. */
  function HashPassword(k: Crypto, salt: string, password: string): string
  {
    k.hash(salt, password)
  }

  /** `VerifyPassword`. */
  function VerifyPassword(k: Crypto, password: string, hash: string): bool
  {
    k.verify(password, hash)
  }

  /** Under the assumption `Sound` states about BCrypt, a stored hash of a
      password verifies that password. This restates the library's promise;
      it proves nothing about BCrypt itself. */
  lemma HashThenVerify(k: Crypto, salt: string, password: string)
    requires Sound(k)
    ensures VerifyPassword(k, password, HashPassword(k, salt, password))
  {
  }

  /** `GenerateJwtToken`: the user's id, email and name, not before `now`,
      expiring seven days later, signed with the configured secret. */
  function GenerateJwtToken(k: Crypto, secret: string, u: User, now: Instant): (r: string)
    ensures Sound(k) ==> k.decode(r).Some?
    ensures Sound(k) ==> var t := k.decode(r).value;
      && t.claims.nameIdentifier == u.id && t.claims.email == u.email && t.claims.name == u.name
      && t.claims.notBefore == now && t.claims.expires == now + TokenLifetime
      && t.signature == k.sign(secret, t.claims)
  {
    var claims := Claims(u.id, u.email, u.name, now, now + TokenLifetime);
    k.encode(Token(claims, k.sign(secret, claims)))
  }

  /** `ValidateTokenAsync`: the signature must match the secret and `now` must
      lie in the token's lifetime, with no clock skew. Every failure, an empty
      secret or unreadable text included, is `false`. */
  function ValidateToken(k: Crypto, secret: string, text: string, now: Instant): (r: bool)
    ensures r ==> |secret| > 0 && k.decode(text).Some?
    ensures r ==> var t := k.decode(text).value;
      t.signature == k.sign(secret, t.claims) && t.claims.notBefore <= now <= t.claims.expires
  {
    if |secret| == 0 then false
    else
      match k.decode(text)
      case None => false
      case Some(t) =>
        t.signature == k.sign(secret, t.claims) && t.claims.notBefore <= now <= t.claims.expires
  }

  /** An issued token validates exactly from its issue time to seven days later. */
  lemma TokenValidForSevenDays(k: Crypto, secret: string, u: User, issued: Instant, now: Instant)
    requires Sound(k) && |secret| > 0
    ensures ValidateToken(k, secret, GenerateJwtToken(k, secret, u, issued), now)
        <==> issued <= now <= issued + TokenLifetime
  {
  }

  /** A token whose claims were changed after signing does not validate,
      provided the signature tells the two claim sets apart: that is an
      assumption about HMAC-SHA256 stated as a precondition, not proved. */
  lemma TamperedClaimsRejected(k: Crypto, secret: string, signed: Claims, shown: Claims, now: Instant)
    requires Sound(k)
    requires k.sign(secret, shown) != k.sign(secret, signed)
    ensures !ValidateToken(k, secret, k.encode(Token(shown, k.sign(secret, signed))), now)
  {
  }

  /** The row `u` with its last login set to `now`, saved over the stored row. */
  function RecordLogin(store: Table, u: User, now: Instant): (r: Table)
    requires u in store
    ensures exists i :: (0 <= i < |store| && store[i] == u
                         && r == store[i := u.(lastLoginAt := Some(now))])
  {
    assert HasId(store, u.id) by {
      var i :| 0 <= i < |store| && store[i] == u;
    }
    Update(store, u.(lastLoginAt := Some(now))).value.table
  }

  /** `LoginAsync`: the active user with this email, if the password verifies,
      gets a token; its last login time is saved. Every failure is `None`
      with the table unchanged. The secret is non-empty: startup refuses a
      missing one. */
  function Login(k: Crypto, secret: string, store: Table, email: string, password: string, now: Instant)
    : (r: (Option<LoginResponse>, Table))
    requires |secret| > 0
    ensures r.0.None? ==> r.1 == store
    ensures r.0.Some? ==> exists i :: (0 <= i < |store| && ActiveWithEmail(store[i], email)
                                       && VerifyPassword(k, password, store[i].passwordHash)
                                       && r.1 == store[i := store[i].(lastLoginAt := Some(now))]
                                       && r.0.value.user == ToUserDto(r.1[i])
                                       && r.0.value.token == GenerateJwtToken(k, secret, r.1[i], now))
    ensures ActiveEmailsUnique(store) ==>
      (r.0.Some? <==> exists u :: (u in store && ActiveWithEmail(u, email)
                                   && VerifyPassword(k, password, u.passwordHash)))
    ensures ActiveEmailsUnique(store) ==> ActiveEmailsUnique(r.1)
  {
    match GetByEmail(store, email)
    case None => (None, store)
    case Some(u) =>
      if !VerifyPassword(k, password, u.passwordHash) then (None, store)
      else if !u.isActive then (None, store)
      else
        var t := RecordLogin(store, u, now);
        var v := u.(lastLoginAt := Some(now));
        assert forall j :: 0 <= j < |t| ==> t[j].email == store[j].email && t[j].isActive == store[j].isActive;
        (Some(LoginResponse(GenerateJwtToken(k, secret, v, now), ToUserDto(v))), t)
  }

  /** An unknown email, a wrong password and an inactive account all give the
      same answer: `None`, nothing saved. */
  lemma LoginFailsUniformly(k: Crypto, secret: string, store: Table, email: string, password: string, now: Instant)
    requires |secret| > 0
    ensures (forall u :: u in store ==> !ActiveWithEmail(u, email))
      ==> Login(k, secret, store, email, password, now) == (None, store)
    ensures (forall u :: u in store && ActiveWithEmail(u, email) ==> !VerifyPassword(k, password, u.passwordHash))
      ==> Login(k, secret, store, email, password, now) == (None, store)
  {
  }

  /** A login's token names the user it logged in and validates for seven days. */
  lemma LoginTokenNamesUser(k: Crypto, secret: string, store: Table, email: string, password: string,
                            now: Instant, later: Instant)
    requires |secret| > 0 && Sound(k)
    requires Login(k, secret, store, email, password, now).0.Some?
    requires now <= later <= now + TokenLifetime
    ensures var resp := Login(k, secret, store, email, password, now).0.value;
      && ValidateToken(k, secret, resp.token, later)
      && k.decode(resp.token).value.claims.nameIdentifier == resp.user.id
      && k.decode(resp.token).value.claims.email == resp.user.email
      && EqualsIgnoreCase(resp.user.email, email)
  {
    var r := Login(k, secret, store, email, password, now);
    var i :| 0 <= i < |store| && ActiveWithEmail(store[i], email)
      && r.1 == store[i := store[i].(lastLoginAt := Some(now))]
      && r.0.value.user == ToUserDto(r.1[i])
      && r.0.value.token == GenerateJwtToken(k, secret, r.1[i], now);
    TokenValidForSevenDays(k, secret, r.1[i], now, later);
  }

  /** The row registration stores: the mapped request with the BCrypt hash. */
  function NewAccount(k: Crypto, req: RegisterRequest, id: string, salt: string, now: Instant): (u: User)
    ensures u.id == id && u.email == req.email && u.name == req.fullName
    ensures u.isActive && u.createdAt == Some(now) && u.lastLoginAt.None?
    ensures u.passwordHash == HashPassword(k, salt, req.password)
    ensures Sound(k) ==> VerifyPassword(k, req.password, u.passwordHash)
    ensures u.location.None? && u.skillLevel.None? && u.phoneNumber.None?
    ensures u.profilePicture.None? && u.preferredPlayTimes.None?
  {
    FromRegistration(req, id, now).(passwordHash := HashPassword(k, salt, req.password))
  }

  /** `RegisterAsync`: refuse an email an active user already holds (ignoring
      case); otherwise store a new active row and return the object mapper's
      view of it, whose play-time list is empty rather than null. `id` is the
      fresh GUID, `salt` BCrypt's salt, `now` the clock. */
  function Register(k: Crypto, store: Table, req: RegisterRequest, id: string, salt: string, now: Instant)
    : (r: (Option<UserDto>, Table))
    requires !HasId(store, id)
    ensures r.0.None? <==> exists u :: u in store && ActiveWithEmail(u, req.email)
    ensures r.0.None? ==> r.1 == store
    ensures r.0.Some? ==> r.1 == store + [NewAccount(k, req, id, salt, now)]
    ensures r.0.Some? ==> r.0.value == MapperView(NewAccount(k, req, id, salt, now))
    ensures r.0.Some? ==> r.0.value.id == id && r.0.value.preferredPlayTimes == Some([])
    ensures ActiveEmailsUnique(store) ==> ActiveEmailsUnique(r.1)
  {
    if GetByEmail(store, req.email).Some? then (None, store)
    else
      var u := NewAccount(k, req, id, salt, now);
      var t := Create(store, u).value.table;
      assert forall j :: 0 <= j < |store| ==> !ActiveWithEmail(store[j], req.email) by {
        assert forall j :: 0 <= j < |store| ==> store[j] in store;
      }
      (Some(MapperView(u)), t)
  }

  /** Whoever registers can log in straight away with the same email and
      password, and the login finds the new account. */
  lemma RegisterThenLogin(k: Crypto, secret: string, store: Table, req: RegisterRequest, id: string,
                          salt: string, now: Instant, later: Instant)
    requires Sound(k) && |secret| > 0 && ActiveEmailsUnique(store)
    requires !HasId(store, id)
    requires Register(k, store, req, id, salt, now).0.Some?
    ensures var t := Register(k, store, req, id, salt, now).1;
      && Login(k, secret, t, req.email, req.password, later).0.Some?
      && Login(k, secret, t, req.email, req.password, later).0.value.user.id == id
  {
    var t := Register(k, store, req, id, salt, now).1;
    var u := NewAccount(k, req, id, salt, now);
    assert t[|store|] == u;
    assert u in t && ActiveWithEmail(u, req.email);
    var r := Login(k, secret, t, req.email, req.password, later);
    var i :| 0 <= i < |t| && ActiveWithEmail(t[i], req.email)
      && r.0.value.user == ToUserDto(r.1[i]);
  }

  /** `GetCurrentUserAsync`: the view of the active user with this id. */
  function GetCurrentUser(store: Table, id: string): (r: Option<UserDto>)
    ensures r.None? <==> forall u :: u in store ==> !ActiveWithId(u, id)
    ensures r.Some? ==> exists u :: u in store && ActiveWithId(u, id) && r.value == ToUserDto(u)
  {
    match GetById(store, id)
    case None => None
    case Some(u) => Some(ToUserDto(u))
  }

  /** A deactivated account is no longer the current user. */
  lemma DeletedIsNotCurrent(store: Table, id: string)
    requires Delete(store, id).0
    ensures GetCurrentUser(Delete(store, id).1, id).None?
  {
    DeleteHidesUser(store, id);
  }
}
