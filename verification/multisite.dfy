/**
 * The multisite cookie logon module: credential-source selection at
 * construction, validation of one `auth_*` cookie, the scan over all cookies
 * and the `check` gate that hands a verified user to the auth backend.
 *
 * Files, the request, the session and the auth backend are explicit values:
 * a call sees one snapshot of the files, and returns the session and the
 * backend state it leaves behind instead of changing globals.
 */
module Multisite {
  import opened Wrappers
  import opened PhpString
  import opened Credentials

  /** Which credential file is authoritative, fixed when the module is built. */
  datatype CredentialSource = Serial | Htpasswd

  /**
   * The three configured files as one snapshot: the lines of the serials and
   * htpasswd files and the text of the shared-secret file, `None` when absent.
   */
  datatype FileSystem = FileSystem(
    serials: Option<seq<string>>,
    htpasswd: Option<seq<string>>,
    secret: Option<string>)

  /** The two `NagVisException`s this module raises. */
  datatype LogonError =
    | ConfigurationError   // neither credential file exists
    | NotAuthenticated     // a redirect was asked for during an AJAX call

  /** Why one cookie was turned down; the scan treats every reason alike. */
  datatype Rejection = MissingCookie | UnknownUser | HashMismatch

  /** One entry of `$_COOKIE`. */
  datatype Cookie = Cookie(name: string, value: string)

  /**
   * The request as the module sees it: whether it is an AJAX call, the
   * already url-encoded `REQUEST_URI`, and the cookies in `$_COOKIE` order.
   */
  datatype Request = Request(ajax: bool, encodedUri: string, cookies: seq<Cookie>)

  /** A constructed module: all it keeps is the credential file it chose. */
  datatype LogonMultisite = LogonMultisite(authFile: CredentialSource)

  /** Result of `new CoreLogonMultisite()`, with the `Location` header it may send. */
  datatype Construction =
    | Constructed(logon: LogonMultisite, location: Option<string>)
    | ConstructionFailed(error: LogonError)

  type Session = map<string, string>

  /** The auth backend state this module touches before asking `isAuthenticated()`. */
  datatype AuthState = AuthState(trustUsername: bool, logoutPossible: bool, user: Option<string>)

  /**
   * The collaborators `check` delegates to: `verifyUserExists` with its
   * (user, create-user flag, create role, print errors) arguments, and the
   * backend's `isAuthenticated()` verdict on its state.
   */
  datatype Backend = Backend(
    verifyUserExists: (string, bool, string, bool) -> bool,
    isAuthenticated: AuthState -> bool)

  /** The `logon_multisite_createuser` and `logon_multisite_createrole` settings. */
  datatype Config = Config(createUser: bool, createRole: string)

  /** How `check` ends: a returned boolean or a raised exception. */
  datatype Verdict = Returned(authenticated: bool) | Raised(error: LogonError)

  /**
   * Everything `check` produces: its verdict, the session and auth backend
   * state afterwards, and the `Location` header it sent, if any.
   */
  datatype CheckOutcome = CheckOutcome(
    verdict: Verdict,
    session: Session,
    auth: AuthState,
    location: Option<string>)

  /** The three parts of a cookie value `username:issueTime:hash`. */
  datatype CookieParts = CookieParts(username: string, issueTime: string, hash: string)

  /** A cookie that validated: its name and the user it names. */
  datatype Hit = Hit(cookieName: string, username: string)

  const AuthCookiePrefix := "auth_"
  const SessionCookieKey := "multisiteLogonCookie"
  const LoginUrl := "../../../check_mk/login.py?_origtarget="

  /** The credential file chosen by existence: serials first, then htpasswd. */
  function SelectAuthFile(fs: FileSystem): (r: Option<CredentialSource>)
    ensures r == Some(Serial) <==> fs.serials.Some?
    ensures r == Some(Htpasswd) <==> fs.serials.None? && fs.htpasswd.Some?
    ensures r.None? <==> fs.serials.None? && fs.htpasswd.None?
  {
    if fs.serials.Some? then Some(Serial)
    else if fs.htpasswd.Some? then Some(Htpasswd)
    else None
  }

  /**
   * `redirectToLogin`: an AJAX call gets the not-authenticated error and never
   * a `Location`; any other call is sent to the login page with the original
   * target attached.
   */
  function RedirectToLogin(req: Request): (r: Result<string, LogonError>)
    ensures r.Failure? <==> req.ajax
    ensures r.Failure? ==> r.error == NotAuthenticated
    ensures r.Success? ==> LoginUrl <= r.value && r.value[|LoginUrl|..] == req.encodedUri
  {
    if req.ajax then Failure(NotAuthenticated) else Success(LoginUrl + req.encodedUri)
  }

  /**
   * The constructor: a configuration error when neither credential file
   * exists; otherwise the chosen file, followed by the redirect when the
   * secret file is missing (which raises on an AJAX call).
   */
  function Construct(fs: FileSystem, req: Request): (c: Construction)
    ensures c == ConstructionFailed(ConfigurationError) <==> fs.serials.None? && fs.htpasswd.None?
    ensures c == ConstructionFailed(NotAuthenticated) <==>
              (fs.serials.Some? || fs.htpasswd.Some?) && fs.secret.None? && req.ajax
    ensures c.Constructed? ==> (c.logon.authFile == Serial <==> fs.serials.Some?)
    ensures c.Constructed? ==> (c.logon.authFile == Htpasswd <==> fs.serials.None?)
    ensures c.Constructed? ==> (c.location.Some? <==> fs.secret.None?)
    ensures c.Constructed? && c.location.Some? ==> c.location.value == LoginUrl + req.encodedUri
  {
    match SelectAuthFile(fs)
    case None => ConstructionFailed(ConfigurationError)
    case Some(src) =>
      if fs.secret.Some? then Constructed(LogonMultisite(src), None)
      else match RedirectToLogin(req)
        case Failure(e) => ConstructionFailed(e)
        case Success(url) => Constructed(LogonMultisite(src), Some(url))
  }

  /** The lines of the file chosen at construction; a file gone since reads as no lines. */
  function SelectedLines(logon: LogonMultisite, fs: FileSystem): seq<string> {
    if logon.authFile == Htpasswd then fs.htpasswd.GetOr([]) else fs.serials.GetOr([])
  }

  /** `loadSecret`: the trimmed shared secret; a missing file reads as "". */
  function LoadSecret(fs: FileSystem): (secret: string)
    ensures fs.secret.None? ==> secret == ""
    ensures fs.secret.Some? ==> |secret| <= |fs.secret.value|
    ensures secret == [] || (!IsPhpSpace(secret[0]) && !IsPhpSpace(secret[|secret| - 1]))
  {
    Trim(fs.secret.GetOr(""))
  }

  /** `generateHash`: the digest of user, issue time, per-user secret and shared secret, in that order. */
  function GenerateHash(md5: string -> string, username: string, issueTime: string,
                        userSecret: string, sharedSecret: string): string
  {
    md5(username + issueTime + userSecret + sharedSecret)
  }

  /**
   * `list($username, $issueTime, $cookieHash) = explode(':', $value, 3)`: the
   * value cut at its first two colons, a missing part reading as "".
   */
  function SplitCookie(value: string): (p: CookieParts)
    ensures ':' !in p.username
    ensures ':' !in value ==> p == CookieParts(value, "", "")
    ensures p.hash != "" ==> ':' !in p.issueTime && value == p.username + ":" + p.issueTime + ":" + p.hash
    ensures ':' in value ==>
              && ':' !in p.issueTime
              && (|| value == p.username + ":" + p.issueTime + ":" + p.hash
                  || (p.hash == "" && value == p.username + ":" + p.issueTime))
  {
    var parts := Explode(':', value, 3);
    if |parts| == 3 then
      JoinOfThree(':', parts);
      CookieParts(parts[0], parts[1], parts[2])
    else
      CookieParts(Piece(parts, 0), Piece(parts, 1), Piece(parts, 2))
  }

  /** Three pieces glued with `sep` are the pieces with a `sep` between each two. */
  lemma JoinOfThree(sep: char, parts: seq<string>)
    requires |parts| == 3
    ensures Join(sep, parts) == parts[0] + [sep] + parts[1] + [sep] + parts[2]
  {
    assert parts[1..][1..] == [parts[2]];
    assert Join(sep, parts[1..]) == parts[1] + [sep] + parts[2];
  }

  /** `$_COOKIE[$name]`: the value of the first cookie called `name`. */
  function CookieValue(jar: seq<Cookie>, name: string): (v: Option<string>)
    ensures v.None? <==> forall i :: 0 <= i < |jar| ==> jar[i].name != name
    ensures v.Some? ==> exists i :: 0 <= i < |jar| && jar[i] == Cookie(name, v.value)
    ensures v.Some? ==> exists i :: && 0 <= i < |jar| && jar[i] == Cookie(name, v.value)
                                    && forall j :: 0 <= j < i ==> jar[j].name != name
  {
    if |jar| == 0 then None
    else if jar[0].name == name then Some(jar[0].value)
    else
      var v := CookieValue(jar[1..], name);
      assert forall i :: 1 <= i < |jar| ==> jar[i] == jar[1..][i - 1];
      v
  }

  /**
   * The checks of `checkAuthCookie` on one cookie value, given the parsed
   * credential table and the shared secret: an empty value, a user the table
   * does not know, or a hash other than the recomputed one is rejected;
   * otherwise the cookie's user is returned as written.
   */
  function ValidateCookieValue(md5: string -> string, users: map<string, string>,
                               sharedSecret: string, value: string): (r: Result<string, Rejection>)
    ensures value == "" ==> r == Failure(MissingCookie)
    ensures SplitCookie(value).username !in users ==> r.Failure?
    ensures r.Success? ==> r.value == SplitCookie(value).username && r.value in users
    ensures r.Success? ==> SplitCookie(value).hash == GenerateHash(md5, r.value, SplitCookie(value).issueTime,
                                                                   users[r.value], sharedSecret)
  {
    if value == "" then Failure(MissingCookie)
    else
      var p := SplitCookie(value);
      if p.username !in users then Failure(UnknownUser)
      else if p.hash != GenerateHash(md5, p.username, p.issueTime, users[p.username], sharedSecret) then
        Failure(HashMismatch)
      else Success(p.username)
  }

  /**
   * `checkAuthCookie`: the named cookie validated against the credential file
   * chosen at construction, parsed afresh, and the shared secret read afresh;
   * an unset cookie is rejected.
   */
  function CheckAuthCookie(logon: LogonMultisite, fs: FileSystem, md5: string -> string,
                           jar: seq<Cookie>, name: string): (r: Result<string, Rejection>)
    ensures CookieValue(jar, name).None? ==> r == Failure(MissingCookie)
  {
    match CookieValue(jar, name)
    case None => Failure(MissingCookie)
    case Some(value) => ValidateCookieValue(md5, LoadAuthFile(SelectedLines(logon, fs)), LoadSecret(fs), value)
  }

  /** `substr($name, 0, 5) == 'auth_'`: the cookie is one this module examines. */
  function IsAuthCookieName(name: string): (b: bool)
    ensures b <==> AuthCookiePrefix <= name
  {
    Head(name, |AuthCookiePrefix|) == AuthCookiePrefix
  }

  /** A per-cookie check: a cookie name to the user it validates to, or why it was turned down. */
  type CookieCheck = string -> Result<string, Rejection>

  /** `checkAuthCookie` with the module, the file snapshot, the digest and the jar fixed. */
  function Validator(logon: LogonMultisite, fs: FileSystem, md5: string -> string,
                     jar: seq<Cookie>): CookieCheck
  {
    name => CheckAuthCookie(logon, fs, md5, jar, name)
  }

  /** The cookie called `name` is an auth cookie that validates to `user`. */
  predicate Validates(validate: CookieCheck, name: string, user: string) {
    IsAuthCookieName(name) && validate(name) == Success(user)
  }

  /** No auth cookie among `rest` validates. */
  predicate NoneValidates(validate: CookieCheck, rest: seq<Cookie>) {
    forall j :: 0 <= j < |rest| && IsAuthCookieName(rest[j].name) ==> validate(rest[j].name).Failure?
  }

  /** The cookie at position `k` of `rest` is the first auth cookie there that validates, to `user`. */
  predicate FirstValidAt(validate: CookieCheck, rest: seq<Cookie>, k: int, user: string) {
    && 0 <= k < |rest|
    && Validates(validate, rest[k].name, user)
    && NoneValidates(validate, rest[..k])
  }

  /** There is one first valid cookie: its position and its user are determined. */
  lemma FirstValidAtUnique(validate: CookieCheck, rest: seq<Cookie>, k1: int, user1: string, k2: int, user2: string)
    requires FirstValidAt(validate, rest, k1, user1)
    requires FirstValidAt(validate, rest, k2, user2)
    ensures k1 == k2 && user1 == user2
  {
  }

  /**
   * The loop of `checkAuth` over the cookies still to visit: cookies not
   * named `auth_*` are passed over and the first one that validates ends the
   * scan with its name and user.
   */
  function Scan(validate: CookieCheck, rest: seq<Cookie>): (hit: Option<Hit>)
    ensures hit.None? <==> NoneValidates(validate, rest)
    ensures hit.Some? ==> exists k :: FirstValidAt(validate, rest, k, hit.value.username)
                                      && rest[k].name == hit.value.cookieName
    decreases |rest|
  {
    if |rest| == 0 then None
    else
      var c := rest[0];
      var tail := Scan(validate, rest[1..]);
      NoneValidatesStep(validate, rest);
      if IsAuthCookieName(c.name) && validate(c.name).Success? then
        var user := validate(c.name).value;
        assert FirstValidAt(validate, rest, 0, user);
        Some(Hit(c.name, user))
      else
        match tail
        case None => None
        case Some(h) =>
          var k :| FirstValidAt(validate, rest[1..], k, h.username) && rest[1..][k].name == h.cookieName;
          FirstValidAtStep(validate, rest, k, h.username);
          tail
  }

  /** No auth cookie of `rest` validates exactly when its head does not and none of its tail does. */
  lemma NoneValidatesStep(validate: CookieCheck, rest: seq<Cookie>)
    requires |rest| > 0
    ensures NoneValidates(validate, rest) <==>
              && (IsAuthCookieName(rest[0].name) ==> validate(rest[0].name).Failure?)
              && NoneValidates(validate, rest[1..])
  {
    assert forall j :: 1 <= j < |rest| ==> rest[j] == rest[1..][j - 1];
  }

  /** Passing over a head that does not validate moves the first valid cookie one position on. */
  lemma FirstValidAtStep(validate: CookieCheck, rest: seq<Cookie>, k: int, user: string)
    requires |rest| > 0
    requires IsAuthCookieName(rest[0].name) ==> validate(rest[0].name).Failure?
    requires FirstValidAt(validate, rest[1..], k, user)
    ensures FirstValidAt(validate, rest, k + 1, user)
    ensures rest[k + 1] == rest[1..][k]
  {
    assert rest[k + 1] == rest[1..][k];
    var prefix := rest[..k + 1];
    assert prefix[0] == rest[0];
    assert prefix[1..] == rest[1..][..k];
    NoneValidatesStep(validate, prefix);
  }

  /**
   * `checkAuth`, for any per-cookie check `validate` (the module's own is
   * `Validator`): the user of the first auth cookie that validates, with that
   * cookie's name stored in the session; "" and the session untouched when
   * none does.
   */
  function CheckAuth(validate: CookieCheck, jar: seq<Cookie>, session: Session): (r: (string, Session))
    ensures NoneValidates(validate, jar) ==> r == ("", session)
    ensures !NoneValidates(validate, jar) ==>
              exists k :: FirstValidAt(validate, jar, k, r.0) && r.1 == session[SessionCookieKey := jar[k].name]
  {
    match Scan(validate, jar)
    case None => ("", session)
    case Some(h) => (h.username, session[SessionCookieKey := h.cookieName])
  }

  /** The auth backend after `setTrustUsername(true)`, `setLogoutPossible(false)` and `passCredentials`. */
  function Trusted(user: string): AuthState {
    AuthState(true, false, Some(user))
  }

  /**
   * The part of `check` after `checkAuth` returned `user`: no user leads to
   * the redirect and `false`; a user the provisioning collaborator refuses
   * leads to `false`; otherwise the user is trusted, logout is disabled and
   * the backend's verdict is returned.
   */
  function Gate(user: string, session: Session, req: Request, auth: AuthState, backend: Backend,
                config: Config, printErr: bool): (o: CheckOutcome)
    ensures o.session == session
    ensures req.ajax ==> o.location.None?
    ensures o.location.Some? ==> o.location == Some(LoginUrl + req.encodedUri)
    ensures o.verdict.Raised? ==> req.ajax && o.verdict.error == NotAuthenticated && o.auth == auth
    ensures user == "" ==> o.auth == auth && o.verdict != Returned(true)
    ensures user == "" && !req.ajax ==> o.location.Some?
    ensures o.auth != auth || o.verdict == Returned(true) ==>
              && user != ""
              && backend.verifyUserExists(user, config.createUser, config.createRole, printErr)
              && o.auth == Trusted(user)
              && o.verdict == Returned(backend.isAuthenticated(Trusted(user)))
    ensures user == "" && req.ajax ==> o.verdict == Raised(NotAuthenticated)
    ensures user != "" && !backend.verifyUserExists(user, config.createUser, config.createRole, printErr) ==>
              o == CheckOutcome(Returned(false), session, auth, None)
    ensures user != "" && backend.verifyUserExists(user, config.createUser, config.createRole, printErr) ==>
              o == CheckOutcome(Returned(backend.isAuthenticated(Trusted(user))), session, Trusted(user), None)
  {
    if user == "" then
      match RedirectToLogin(req)
      case Failure(e) => CheckOutcome(Raised(e), session, auth, None)
      case Success(url) => CheckOutcome(Returned(false), session, auth, Some(url))
    else if !backend.verifyUserExists(user, config.createUser, config.createRole, printErr) then
      CheckOutcome(Returned(false), session, auth, None)
    else
      var trusted := Trusted(user);
      CheckOutcome(Returned(backend.isAuthenticated(trusted)), session, trusted, None)
  }

  /**
   * `check` for any per-cookie check `validate`: the user found by
   * `checkAuth`, passed through the gate; the session comes back with the
   * winning cookie's name when there was one.
   */
  function CheckWith(validate: CookieCheck, req: Request, session: Session, auth: AuthState,
                     backend: Backend, config: Config, printErr: bool): (o: CheckOutcome)
    ensures req.ajax ==> o.location.None?
    ensures o.verdict.Raised? ==> req.ajax && o.verdict.error == NotAuthenticated && o.auth == auth
  {
    var (user, session') := CheckAuth(validate, req.cookies, session);
    Gate(user, session', req, auth, backend, config, printErr)
  }

  /**
   * `check` of a constructed module against one snapshot of the files: each
   * auth cookie of the request is judged by `checkAuthCookie`.
   */
  function Check(logon: LogonMultisite, fs: FileSystem, md5: string -> string, req: Request,
                 session: Session, auth: AuthState, backend: Backend, config: Config,
                 printErr: bool): (o: CheckOutcome)
    ensures req.ajax ==> o.location.None?
    ensures o.verdict.Raised? ==> req.ajax && o.verdict.error == NotAuthenticated && o.auth == auth
  {
    CheckWith(Validator(logon, fs, md5, req.cookies), req, session, auth, backend, config, printErr)
  }
}
