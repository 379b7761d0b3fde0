/**
 * Properties of the multisite logon module that relate several calls: the
 * cookie format round trip, what validation may and may not depend on, and
 * how the scan and the gate behave over whole cookie jars.
 */
module MultisiteProofs {
  import opened Wrappers
  import opened PhpString
  import opened Credentials
  import opened Multisite

  /**
   * The cookie value the issuing login page hands out for `user` at
   * `issueTime`: the two fields and the digest of all four inputs, colon-separated.
   */
  function IssuedCookie(md5: string -> string, user: string, issueTime: string,
                        userSecret: string, sharedSecret: string): string
  {
    user + ":" + issueTime + ":" + md5(user + issueTime + userSecret + sharedSecret)
  }

  /** Splitting a cookie built from colon-free user and time gives the three fields back, the hash unchanged. */
  lemma SplitCookieOfFields(user: string, issueTime: string, hash: string)
    requires ':' !in user && ':' !in issueTime
    ensures SplitCookie(user + ":" + issueTime + ":" + hash) == CookieParts(user, issueTime, hash)
  {
    var parts := [user, issueTime, hash];
    assert parts[1..] == [issueTime, hash] && parts[1..][1..] == [hash];
    assert Join(':', [hash]) == hash;
    assert Join(':', [issueTime, hash]) == issueTime + [':'] + hash;
    assert Join(':', parts) == user + [':'] + (issueTime + [':'] + hash);
    assert user + [':'] + (issueTime + [':'] + hash) == user + ":" + issueTime + ":" + hash;
    ExplodeOfJoin(':', parts);
  }

  /**
   * An issued cookie validates: when the credential table knows the user, the
   * cookie made from that user's secret and the shared secret is accepted and
   * yields the user.
   */
  lemma IssuedCookieAccepted(md5: string -> string, users: map<string, string>, sharedSecret: string,
                             user: string, issueTime: string)
    requires ':' !in user && ':' !in issueTime
    requires user in users
    ensures ValidateCookieValue(md5, users, sharedSecret,
                                IssuedCookie(md5, user, issueTime, users[user], sharedSecret)) == Success(user)
  {
    SplitCookieOfFields(user, issueTime, md5(user + issueTime + users[user] + sharedSecret));
  }

  /**
   * Only issued cookies validate: an accepted value is the issued cookie of
   * its user, a user the table knows, for the issue time it carries, unless
   * the digest of its fields is empty (an MD5 hex digest never is).
   */
  lemma AcceptedCookieWasIssued(md5: string -> string, users: map<string, string>, sharedSecret: string,
                                value: string, user: string)
    requires ValidateCookieValue(md5, users, sharedSecret, value) == Success(user)
    ensures user in users
    ensures var t := SplitCookie(value).issueTime;
            || (':' !in t && value == IssuedCookie(md5, user, t, users[user], sharedSecret))
            || md5(user + t + users[user] + sharedSecret) == ""
  {
    var p := SplitCookie(value);
    assert p.hash == md5(user + p.issueTime + users[user] + sharedSecret);
    if p.hash != "" {
      assert value == IssuedCookie(md5, user, p.issueTime, users[user], sharedSecret);
    }
  }

  /**
   * Through the whole module: when the credential file chosen at construction
   * ends with the record `user:secret` and the secret file holds the shared
   * secret, the cookie issued from those two secrets validates to `user`.
   */
  lemma IssuedAuthCookieValidates(logon: LogonMultisite, fs: FileSystem, md5: string -> string,
                                  jar: seq<Cookie>, name: string, user: string, issueTime: string,
                                  lines: seq<string>, secret: string, lineEnd: string,
                                  secretStart: string, sharedSecret: string, secretEnd: string)
    requires ':' !in user && ':' !in issueTime
    requires secret == [] || !IsPhpSpace(secret[|secret| - 1])
    requires sharedSecret == [] || (!IsPhpSpace(sharedSecret[0]) && !IsPhpSpace(sharedSecret[|sharedSecret| - 1]))
    requires AllSpace(lineEnd) && AllSpace(secretStart) && AllSpace(secretEnd)
    requires SelectedLines(logon, fs) == lines + [user + ":" + secret + lineEnd]
    requires fs.secret == Some(secretStart + sharedSecret + secretEnd)
    requires CookieValue(jar, name) == Some(IssuedCookie(md5, user, issueTime, secret, sharedSecret))
    ensures CheckAuthCookie(logon, fs, md5, jar, name) == Success(user)
  {
    var users := LoadAuthFile(SelectedLines(logon, fs));
    LoadAuthFileOfLastRecord(lines, user, secret, lineEnd);
    LoadSecretOfPaddedText(fs, secretStart, sharedSecret, secretEnd);
    var value := IssuedCookie(md5, user, issueTime, users[user], sharedSecret);
    CheckAuthCookieOfValue(logon, fs, md5, jar, name, value);
    IssuedCookieAccepted(md5, users, sharedSecret, user, issueTime);
  }

  /** A file whose last line is the record `user:secret` gives `user` that secret. */
  lemma LoadAuthFileOfLastRecord(lines: seq<string>, user: string, secret: string, lineEnd: string)
    requires ':' !in user
    requires secret == [] || !IsPhpSpace(secret[|secret| - 1])
    requires AllSpace(lineEnd)
    ensures var users := LoadAuthFile(lines + [user + ":" + secret + lineEnd]);
            user in users && users[user] == secret
  {
    var all := lines + [user + ":" + secret + lineEnd];
    ParseLineOfRecord(user, secret, lineEnd);
    assert all[..|all| - 1] == lines;
  }

  /** A secret file holding a trimmed secret between two whitespace runs loads as that secret. */
  lemma LoadSecretOfPaddedText(fs: FileSystem, secretStart: string, sharedSecret: string, secretEnd: string)
    requires sharedSecret == [] || (!IsPhpSpace(sharedSecret[0]) && !IsPhpSpace(sharedSecret[|sharedSecret| - 1]))
    requires AllSpace(secretStart) && AllSpace(secretEnd)
    requires fs.secret == Some(secretStart + sharedSecret + secretEnd)
    ensures LoadSecret(fs) == sharedSecret
  {
    TrimOfPaddedText(secretStart, sharedSecret, secretEnd);
  }

  /** A cookie that is set is judged by its value against the chosen table and the secret. */
  lemma CheckAuthCookieOfValue(logon: LogonMultisite, fs: FileSystem, md5: string -> string,
                               jar: seq<Cookie>, name: string, value: string)
    requires CookieValue(jar, name) == Some(value)
    ensures CheckAuthCookie(logon, fs, md5, jar, name) ==
              ValidateCookieValue(md5, LoadAuthFile(SelectedLines(logon, fs)), LoadSecret(fs), value)
  {
  }

  /**
   * A constructed module reads the credential file it chose: the serials
   * lines when serials existed, the htpasswd lines otherwise.
   */
  lemma ConstructedReadsChosenFile(fs: FileSystem, req: Request)
    requires Construct(fs, req).Constructed?
    ensures var lines := SelectedLines(Construct(fs, req).logon, fs);
            && (SelectAuthFile(fs) == Some(Serial) ==> lines == fs.serials.value)
            && (SelectAuthFile(fs) == Some(Htpasswd) ==> lines == fs.htpasswd.value)
  {
  }

  /**
   * `generateHash` glues its four inputs with no separator between them, so
   * only their concatenation matters: moving characters between user and
   * issue time keeps the digest. This documents the missing field separator
   * rather than serving the validation proofs.
   */
  lemma GenerateHashIgnoresFieldBoundaries(md5: string -> string, user1: string, issueTime1: string,
                                           user2: string, issueTime2: string,
                                           userSecret: string, sharedSecret: string)
    requires user1 + issueTime1 == user2 + issueTime2
    ensures GenerateHash(md5, user1, issueTime1, userSecret, sharedSecret) ==
            GenerateHash(md5, user2, issueTime2, userSecret, sharedSecret)
  {
    assert user1 + issueTime1 + userSecret + sharedSecret == user2 + issueTime2 + userSecret + sharedSecret;
  }

  /** One step of the scan: a head that validates ends it, any other head is passed over. */
  lemma ScanStep(validate: CookieCheck, rest: seq<Cookie>)
    requires |rest| > 0
    ensures Scan(validate, rest) ==
              if IsAuthCookieName(rest[0].name) && validate(rest[0].name).Success?
              then Some(Hit(rest[0].name, validate(rest[0].name).value))
              else Scan(validate, rest[1..])
  {
  }

  /**
   * Two scans agree when every auth cookie they visit is judged the same way
   * by both checks; cookies not named `auth_*` are never looked at.
   */
  lemma {:induction false} ScanAgrees(validate1: CookieCheck, validate2: CookieCheck, rest: seq<Cookie>)
    requires forall j :: 0 <= j < |rest| && IsAuthCookieName(rest[j].name) ==>
               validate1(rest[j].name) == validate2(rest[j].name)
    ensures Scan(validate1, rest) == Scan(validate2, rest)
    decreases |rest|
  {
    if |rest| > 0 {
      assert forall j :: 1 <= j < |rest| ==> rest[1..][j - 1] == rest[j];
      ScanStep(validate1, rest);
      ScanStep(validate2, rest);
      ScanAgrees(validate1, validate2, rest[1..]);
    }
  }

  /**
   * Validation reads only the credential file chosen at construction: two
   * snapshots that agree on that file and on the secret file judge every
   * cookie alike, whatever the other credential file holds.
   */
  lemma CheckAuthCookieIgnoresOtherCredentialFile(logon: LogonMultisite, fs1: FileSystem, fs2: FileSystem,
                                                  md5: string -> string, jar: seq<Cookie>, name: string)
    requires SelectedLines(logon, fs1) == SelectedLines(logon, fs2)
    requires fs1.secret == fs2.secret
    ensures CheckAuthCookie(logon, fs1, md5, jar, name) == CheckAuthCookie(logon, fs2, md5, jar, name)
  {
    match CookieValue(jar, name)
    case None =>
    case Some(value) =>
      assert LoadSecret(fs1) == LoadSecret(fs2);
      CheckAuthCookieOfValue(logon, fs1, md5, jar, name, value);
      CheckAuthCookieOfValue(logon, fs2, md5, jar, name, value);
  }

  /** The same holds of the whole gate: `check` gives the same outcome on both snapshots. */
  lemma CheckIgnoresOtherCredentialFile(
    logon: LogonMultisite, fs1: FileSystem, fs2: FileSystem, md5: string -> string, req: Request,
    session: Session, auth: AuthState, backend: Backend, config: Config, printErr: bool)
    requires SelectedLines(logon, fs1) == SelectedLines(logon, fs2)
    requires fs1.secret == fs2.secret
    ensures Check(logon, fs1, md5, req, session, auth, backend, config, printErr) ==
            Check(logon, fs2, md5, req, session, auth, backend, config, printErr)
  {
    var jar := req.cookies;
    var v1 := Validator(logon, fs1, md5, jar);
    var v2 := Validator(logon, fs2, md5, jar);
    forall n
      ensures v1(n) == v2(n)
    {
      CheckAuthCookieIgnoresOtherCredentialFile(logon, fs1, fs2, md5, jar, n);
    }
    ScanAgrees(v1, v2, jar);
    assert CheckAuth(v1, jar, session) == CheckAuth(v2, jar, session);
  }

  /** A cookie added to a jar changes no lookup of a different name. */
  lemma {:induction false} CookieValueSkipsOtherName(a: seq<Cookie>, c: Cookie, b: seq<Cookie>, name: string)
    requires c.name != name
    ensures CookieValue(a + [c] + b, name) == CookieValue(a + b, name)
    decreases |a|
  {
    if |a| == 0 {
      assert a + [c] + b == [c] + b;
      assert ([c] + b)[1..] == b;
      assert a + b == b;
    } else {
      assert (a + [c] + b)[1..] == a[1..] + [c] + b;
      assert (a + b)[1..] == a[1..] + b;
      CookieValueSkipsOtherName(a[1..], c, b, name);
    }
  }

  /** Visiting one more cookie that is not named `auth_*` does not change the scan. */
  lemma {:induction false} ScanSkipsNonAuthCookie(validate: CookieCheck, a: seq<Cookie>, c: Cookie, b: seq<Cookie>)
    requires !IsAuthCookieName(c.name)
    ensures Scan(validate, a + [c] + b) == Scan(validate, a + b)
    decreases |a|
  {
    var x := a + [c] + b;
    var y := a + b;
    if |a| == 0 {
      assert x == [c] + b && x[1..] == b && y == b;
      ScanStep(validate, x);
    } else {
      assert x[0] == a[0] && y[0] == a[0];
      assert x[1..] == a[1..] + [c] + b;
      assert y[1..] == a[1..] + b;
      ScanStep(validate, x);
      ScanStep(validate, y);
      ScanSkipsNonAuthCookie(validate, a[1..], c, b);
    }
  }

  /** Validating one cookie never looks at the other cookies of the jar. */
  lemma CheckAuthCookieIgnoresOtherCookie(logon: LogonMultisite, fs: FileSystem, md5: string -> string,
                                          a: seq<Cookie>, c: Cookie, b: seq<Cookie>, name: string)
    requires c.name != name
    ensures CheckAuthCookie(logon, fs, md5, a + [c] + b, name) == CheckAuthCookie(logon, fs, md5, a + b, name)
  {
    CookieValueSkipsOtherName(a, c, b, name);
  }

  /**
   * Cookies whose name does not start with `auth_` are never examined: adding
   * one anywhere in the jar leaves the user and the session of `checkAuth` unchanged.
   */
  lemma CheckAuthIgnoresNonAuthCookie(logon: LogonMultisite, fs: FileSystem, md5: string -> string,
                                      a: seq<Cookie>, c: Cookie, b: seq<Cookie>, session: Session)
    requires !IsAuthCookieName(c.name)
    ensures CheckAuth(Validator(logon, fs, md5, a + [c] + b), a + [c] + b, session) ==
            CheckAuth(Validator(logon, fs, md5, a + b), a + b, session)
  {
    var v1 := Validator(logon, fs, md5, a + [c] + b);
    var v2 := Validator(logon, fs, md5, a + b);
    forall n | IsAuthCookieName(n)
      ensures v1(n) == v2(n)
    {
      CheckAuthCookieIgnoresOtherCookie(logon, fs, md5, a, c, b, n);
    }
    ScanSkipsNonAuthCookie(v1, a, c, b);
    ScanAgrees(v1, v2, a + b);
  }

  /**
   * When exactly one auth cookie validates, the scan finds it wherever it
   * sits: the order decides nothing between a valid and an invalid cookie.
   */
  lemma ScanFindsOnlyValidCookie(validate: CookieCheck, rest: seq<Cookie>, k: nat, user: string)
    requires k < |rest| && Validates(validate, rest[k].name, user)
    requires forall j :: 0 <= j < |rest| && j != k && IsAuthCookieName(rest[j].name) ==>
               validate(rest[j].name).Failure?
    ensures Scan(validate, rest) == Some(Hit(rest[k].name, user))
  {
    assert FirstValidAt(validate, rest, k, user) by {
      assert forall j :: 0 <= j < k ==> rest[..k][j] == rest[j];
    }
    var h := Scan(validate, rest).value;
    var k' :| FirstValidAt(validate, rest, k', h.username) && rest[k'].name == h.cookieName;
    FirstValidAtUnique(validate, rest, k, user, k', h.username);
  }

  /**
   * Through `checkAuth`: the only auth cookie that validates yields its user
   * and its name is stored in the session.
   */
  lemma UniqueValidCookieWins(validate: CookieCheck, jar: seq<Cookie>, session: Session, k: nat, user: string)
    requires k < |jar| && Validates(validate, jar[k].name, user)
    requires forall j :: 0 <= j < |jar| && j != k && IsAuthCookieName(jar[j].name) ==>
               validate(jar[j].name).Failure?
    ensures CheckAuth(validate, jar, session) == (user, session[SessionCookieKey := jar[k].name])
  {
    ScanFindsOnlyValidCookie(validate, jar, k, user);
  }

  /**
   * A valid cookie naming the empty user still leads to the redirect: `check`
   * answers `false` (or raises on an AJAX call) and does not touch the auth
   * backend, although the cookie's name has been stored in the session.
   */
  lemma ValidEmptyUserRedirects(validate: CookieCheck, req: Request, session: Session, auth: AuthState,
                                backend: Backend, config: Config, printErr: bool, k: nat)
    requires FirstValidAt(validate, req.cookies, k, "")
    ensures var o := CheckWith(validate, req, session, auth, backend, config, printErr);
            && o.session == session[SessionCookieKey := req.cookies[k].name]
            && o.auth == auth
            && (req.ajax ==> o.verdict == Raised(NotAuthenticated) && o.location.None?)
            && (!req.ajax ==> o.verdict == Returned(false) && o.location == Some(LoginUrl + req.encodedUri))
  {
    var jar := req.cookies;
    var r := CheckAuth(validate, jar, session);
    var k' :| FirstValidAt(validate, jar, k', r.0) && r.1 == session[SessionCookieKey := jar[k'].name];
    FirstValidAtUnique(validate, jar, k, "", k', r.0);
  }

  /**
   * A user the provisioning collaborator refuses is not trusted: `check`
   * answers `false`, sends no redirect and leaves the auth backend as it was.
   */
  lemma RefusedUserNotTrusted(validate: CookieCheck, req: Request, session: Session, auth: AuthState,
                              backend: Backend, config: Config, printErr: bool, k: nat, user: string)
    requires FirstValidAt(validate, req.cookies, k, user) && user != ""
    requires !backend.verifyUserExists(user, config.createUser, config.createRole, printErr)
    ensures CheckWith(validate, req, session, auth, backend, config, printErr) ==
              CheckOutcome(Returned(false), session[SessionCookieKey := req.cookies[k].name], auth, None)
  {
    var jar := req.cookies;
    var r := CheckAuth(validate, jar, session);
    var k' :| FirstValidAt(validate, jar, k', r.0) && r.1 == session[SessionCookieKey := jar[k'].name];
    FirstValidAtUnique(validate, jar, k, user, k', r.0);
  }

  /**
   * A verified, provisioned user is trusted: the backend is told to trust the
   * name and forbid logout, and its `isAuthenticated()` verdict is the answer.
   */
  lemma ProvisionedUserTrusted(validate: CookieCheck, req: Request, session: Session, auth: AuthState,
                               backend: Backend, config: Config, printErr: bool, k: nat, user: string)
    requires FirstValidAt(validate, req.cookies, k, user) && user != ""
    requires backend.verifyUserExists(user, config.createUser, config.createRole, printErr)
    ensures var trusted := Trusted(user);
            CheckWith(validate, req, session, auth, backend, config, printErr) ==
              CheckOutcome(Returned(backend.isAuthenticated(trusted)),
                           session[SessionCookieKey := req.cookies[k].name], trusted, None)
  {
    var jar := req.cookies;
    var r := CheckAuth(validate, jar, session);
    var k' :| FirstValidAt(validate, jar, k', r.0) && r.1 == session[SessionCookieKey := jar[k'].name];
    FirstValidAtUnique(validate, jar, k, user, k', r.0);
  }

  /**
   * With no valid auth cookie, `check` redirects to the login page and
   * answers `false` (on an AJAX call it raises the not-authenticated error
   * instead), leaving session and auth backend untouched.
   */
  lemma NoValidCookieRedirects(validate: CookieCheck, req: Request, session: Session, auth: AuthState,
                               backend: Backend, config: Config, printErr: bool)
    requires NoneValidates(validate, req.cookies)
    ensures var o := CheckWith(validate, req, session, auth, backend, config, printErr);
            && o.session == session
            && o.auth == auth
            && (req.ajax ==> o.verdict == Raised(NotAuthenticated) && o.location.None?)
            && (!req.ajax ==> o.verdict == Returned(false) && o.location == Some(LoginUrl + req.encodedUri))
  {
  }

  /**
   * No trust without a valid cookie: when `check` changes the auth backend or
   * answers `true`, some auth cookie validated first to a non-empty user that
   * the provisioning collaborator accepted, and that user is the one trusted.
   */
  lemma TrustNeedsValidCookie(validate: CookieCheck, req: Request, session: Session, auth: AuthState,
                              backend: Backend, config: Config, printErr: bool)
    ensures var o := CheckWith(validate, req, session, auth, backend, config, printErr);
            o.auth != auth || o.verdict == Returned(true) ==>
              exists k, user :: && FirstValidAt(validate, req.cookies, k, user)
                                && user != ""
                                && backend.verifyUserExists(user, config.createUser, config.createRole, printErr)
                                && o.auth == Trusted(user)
  {
  }
}
