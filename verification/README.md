# NagVis multisite cookie logon, modelled in Dafny

This project models `CoreLogonMultisite`, the NagVis logon module that trusts
a login already performed by Check_MK Multisite. Multisite hands out a cookie
named `auth_<site>` whose value is `username:issueTime:hash`. The module
recomputes the hash as the MD5 of the username, the issue time, the user's
secret from a credential file and the installation's shared secret, and
accepts the user only when the two hashes compare equal (exact string
equality in the model; see "Left out" for PHP's loose comparison). A verified user goes to the
provisioning collaborator (`verifyUserExists`) and then to the auth backend,
which is told to trust the name and to offer no logout. A request without a
valid cookie is sent to the Multisite login page. An AJAX request gets a
"not authenticated" error instead.

The model is functional. Files, the request, the session and the auth
backend are explicit values:

- `wrappers.dfy` (`Wrappers`): `Option` and `Result`, which replace PHP's
  exceptions and `false` returns.
- `php_string.dfy` (`PhpString`): the PHP string built-ins the module uses,
  each written out. They are `trim`/`rtrim`/`ltrim` with PHP's default
  character list `" \t\n\r\0\x0B"`, `strpos` for one character, `explode`
  with a positive limit, the `null` padding of `list(...) =`, and
  `substr($s, 0, $n)`.
- `credentials.dfy` (`Credentials`): `loadAuthFile`, the parser shared by the
  `auth.serials` and `htpasswd` formats.
- `multisite.dfy` (`Multisite`): the constructor, `loadSecret`,
  `generateHash`, `checkAuthCookie`, `checkAuth`, `redirectToLogin` and
  `check`.
- `multisite_proofs.dfy` (`MultisiteProofs`): properties that relate several
  calls. They cover the cookie round trip, what validation depends on, and
  how the scan and the gate behave.

`checkAuth` and `check` are modelled for any per-cookie check
(`CheckAuth`, `CheckWith`). The module's own per-cookie check is
`checkAuthCookie`, fixed to one module, file snapshot and request
(`Validator`). `Check` is `CheckWith` applied to that check, so every
property proved of `CheckWith` holds of `Check`.

These are inputs to the model rather than behaviour inside it:

- MD5 is a parameter `md5: string -> string`, so every result holds for any
  digest function.
- `urlencode($_SERVER['REQUEST_URI'])` is an input, `Request.encodedUri`.
- `CONST_AJAX` is `Request.ajax`.
- `$_COOKIE` is `Request.cookies`, a sequence of cookies in PHP's order.
- `$_SESSION` is a `map<string, string>` passed in and returned.
- The auth backend is an `AuthState` plus the backend's `isAuthenticated`
  verdict, held in a `Backend` value.
- The `logon_multisite_createuser` and `logon_multisite_createrole` settings
  are a `Config` value.

### Behaviour worth knowing

The model follows the code on these points:

- Credential-file selection happens once, at construction. The serials file
  wins whenever it exists. Htpasswd is used only when serials is absent. When
  neither exists, construction raises a configuration error.
- A missing secret file does not stop construction outside AJAX. The
  constructor only sends the `Location` header. A later `check()` still
  validates cookies. At that point `file_get_contents` returns `false`, which
  `trim` turns into "", so the empty string is used as the shared secret.
  Under AJAX, the same missing file makes construction raise the
  not-authenticated error.
- A cookie value with fewer than two colons is not filtered out before
  validation. `list()` fills the missing parts with `null`, which reads as ""
  (`SplitCookie`). Such a cookie is rejected only because the recomputed
  digest differs from the empty hash. `AcceptedCookieWasIssued` shows that
  this rejection holds whenever the digest is not empty, as an MD5 hex
  digest never is.
- The scan takes cookies in `$_COOKIE` order, and the first cookie that
  validates wins. With two valid cookies, the earlier one decides.
  `UniqueValidCookieWins` shows that order does not matter when only one
  cookie is valid.
- A valid cookie whose username is empty has its cookie name written to the
  session. `check` then still treats the request as unauthenticated.
- The credential file and the secret are re-read for every cookie. The model
  evaluates one `check` against one snapshot of the files (`FileSystem`). If
  the selected credential file has disappeared since construction, it reads
  as no lines.

## Model

| member | source | states |
|---|---|---|
| PhpString.RTrim | share/server/core/classes/CoreLogonMultisite.php:62 | `rtrim` returns a prefix of its input that ends in a non-whitespace character (or is empty), and everything it drops is PHP whitespace |
| PhpString.RTrimOfPaddedText | share/server/core/classes/CoreLogonMultisite.php:62 | `rtrim` of text followed by any whitespace run gives the text back, provided the text does not end in whitespace; this is the converse that pins `rtrim` down |
| PhpString.LTrim | share/server/core/classes/CoreLogonMultisite.php:69 | `ltrim`, the first half of `trim`, returns a suffix of its input that starts with a non-whitespace character (or is empty), and drops only whitespace |
| PhpString.Trim | share/server/core/classes/CoreLogonMultisite.php:69 | the trimmed shared secret is no longer than the file text, and has no whitespace at either end |
| PhpString.TrimOfPaddedText | share/server/core/classes/CoreLogonMultisite.php:69 | a secret surrounded by whitespace on both sides trims to exactly that secret |
| PhpString.IndexOf | share/server/core/classes/CoreLogonMultisite.php:60 | `strpos` for one character: none exactly when the character does not occur, otherwise the position of its first occurrence |
| PhpString.Explode | share/server/core/classes/CoreLogonMultisite.php:61 | `explode` with limit n returns 1..n pieces that join back to the input; no piece but the last contains the separator, and the last contains it only when the limit was reached |
| PhpString.ExplodeOfJoin | share/server/core/classes/CoreLogonMultisite.php:82 | `explode` undoes `implode`: pieces free of the separator (except possibly the last) come back unchanged |
| PhpString.Head | share/server/core/classes/CoreLogonMultisite.php:108 | `substr($s, 0, $n)` is the prefix of length min(n, length) |
| Credentials.ParseLine | share/server/core/classes/CoreLogonMultisite.php:60-62 | a line yields no record exactly when it has no colon; otherwise the user is the colon-free text before the first colon, and the secret is the rest of the line after that colon with trailing whitespace removed |
| Credentials.ParseLineOfRecord | share/server/core/classes/CoreLogonMultisite.php:60-62 | a line written as `user:secret` plus a line end parses back to that user and secret, even when the secret holds further colons |
| Credentials.LoadAuthFile | share/server/core/classes/CoreLogonMultisite.php:57-66 | every user in the table is colon-free, and a file with no lines gives an empty table; `LoadAuthFileKeys` and `LoadAuthFileLastLineWins` state which users and secrets it holds |
| Credentials.LoadAuthFileKeys | share/server/core/classes/CoreLogonMultisite.php:57-65 | the parsed table knows a user exactly when some line defines it, so lines without a colon add nothing |
| Credentials.LoadAuthFileLastLineWins | share/server/core/classes/CoreLogonMultisite.php:59-63 | a repeated user's secret comes from the last line that defines the user |
| Multisite.SelectAuthFile | share/server/core/classes/CoreLogonMultisite.php:40-50 | serials is chosen exactly when it exists; htpasswd exactly when serials is absent and htpasswd exists; nothing when neither exists |
| Multisite.LoadSecret | share/server/core/classes/CoreLogonMultisite.php:68-70 | a missing secret file gives ""; otherwise the secret is no longer than the file text and has no whitespace at either end; `LoadSecretOfPaddedText` states which text is kept |
| Multisite.Construct | share/server/core/classes/CoreLogonMultisite.php:32-55 | construction fails with the configuration error exactly when neither credential file exists. It fails with the not-authenticated error exactly when a credential file exists, the secret file is missing and the call is AJAX. Otherwise it keeps serials exactly when that file exists, and sends the login redirect exactly when the secret file is missing |
| Multisite.RedirectToLogin | share/server/core/classes/CoreLogonMultisite.php:124-131 | an AJAX call always gets the not-authenticated error and no `Location`; any other call gets the login URL with the encoded request URI as `_origtarget` |
| Multisite.SplitCookie | share/server/core/classes/CoreLogonMultisite.php:82 | the username never contains a colon. A colon-free value is all username, with empty time and hash. A value with a colon is `username:issueTime:hash` with a colon-free time and the later colons kept in the hash. With exactly one colon it is `username:issueTime` and the hash is empty |
| Multisite.CookieValue | share/server/core/classes/CoreLogonMultisite.php:78 | a lookup of `$_COOKIE` finds nothing exactly when no cookie has that name, and otherwise returns the value of the first cookie with that name |
| Multisite.ValidateCookieValue | share/server/core/classes/CoreLogonMultisite.php:78-101 | an empty value is rejected, and so is a user the table does not know, whatever the hash; an accepted value yields its username unchanged, a known user, whose hash equals the digest of user, time, user secret and shared secret |
| Multisite.CheckAuthCookie | share/server/core/classes/CoreLogonMultisite.php:77-80 | an unset cookie is rejected before any file is read |
| Multisite.IsAuthCookieName | share/server/core/classes/CoreLogonMultisite.php:108 | the five-character `substr` test accepts exactly the names that start with `auth_` |
| Multisite.Scan | share/server/core/classes/CoreLogonMultisite.php:107-121 | the scan finds nothing exactly when no `auth_` cookie validates; otherwise it returns the name and user of the first `auth_` cookie in order that validates |
| Multisite.CheckAuth | share/server/core/classes/CoreLogonMultisite.php:104-122 | for any per-cookie check: with no valid `auth_` cookie the result is "" and the session is unchanged; otherwise it is the first valid cookie's user, and that cookie's name is stored under `multisiteLogonCookie` |
| Multisite.Gate | share/server/core/classes/CoreLogonMultisite.php:136-153 | the gate decides all four cases. An empty user raises on an AJAX call and otherwise answers `false` with the login redirect, the backend untouched either way. A user that provisioning refuses gets `false` with no redirect and the backend untouched. A provisioned user is trusted with logout disabled and gets the backend's `isAuthenticated()` answer. Conversely, a changed backend or a `true` answer means a non-empty, provisioned user |
| Multisite.CheckWith | share/server/core/classes/CoreLogonMultisite.php:133-154 | for any per-cookie check: an AJAX call never gets a `Location` header, and `check` raises only the not-authenticated error, only on AJAX calls, with the backend untouched |
| Multisite.Check | share/server/core/classes/CoreLogonMultisite.php:133-154 | an AJAX call never gets a `Location` header, and `check` raises only the not-authenticated error, only on AJAX calls, with the backend untouched |
| MultisiteProofs.SplitCookieOfFields | share/server/core/classes/CoreLogonMultisite.php:82 | a cookie built from a colon-free user and time splits back into exactly those fields, with the hash unchanged even if it holds colons |
| MultisiteProofs.GenerateHashIgnoresFieldBoundaries | share/server/core/classes/CoreLogonMultisite.php:72-75 | `generateHash` concatenates its inputs without a separator, so two splits of the same text into user and issue time give the same digest |
| MultisiteProofs.IssuedCookieAccepted | share/server/core/classes/CoreLogonMultisite.php:72-101 | the value Multisite issues for a user the table knows, from that user's secret and the shared secret, is accepted and yields the user |
| MultisiteProofs.AcceptedCookieWasIssued | share/server/core/classes/CoreLogonMultisite.php:82-101 | an accepted value names a user the table knows. It is exactly the issued value of that user for the colon-free issue time it carries, unless the digest of its fields is empty. So, with a digest that is never empty, values with fewer than two colons are always rejected |
| MultisiteProofs.LoadAuthFileOfLastRecord | share/server/core/classes/CoreLogonMultisite.php:57-65 | a credential file whose last line is `user:secret` plus a line end gives `user` exactly that secret, whatever came before |
| MultisiteProofs.LoadSecretOfPaddedText | share/server/core/classes/CoreLogonMultisite.php:68-70 | a secret file holding the shared secret between whitespace runs at its start and end (such as the final newline) loads as exactly that secret; `trim` strips both ends |
| MultisiteProofs.IssuedAuthCookieValidates | share/server/core/classes/CoreLogonMultisite.php:77-101 | end to end: when the credential file chosen at construction ends with the record `user:secret` and the secret file holds the shared secret with any surrounding whitespace, a cookie carrying the value issued from those two secrets validates to `user` |
| MultisiteProofs.ScanAgrees | share/server/core/classes/CoreLogonMultisite.php:107-121 | the scan depends only on how its `auth_` cookies validate |
| MultisiteProofs.ConstructedReadsChosenFile | share/server/core/classes/CoreLogonMultisite.php:84-87 | a constructed module reads the credential file chosen at construction: the serials lines when serials existed, the htpasswd lines otherwise |
| MultisiteProofs.CheckAuthCookieIgnoresOtherCredentialFile | share/server/core/classes/CoreLogonMultisite.php:84-87 | cookie validation reads only the credential file chosen at construction: changing the other file changes no result |
| MultisiteProofs.CheckIgnoresOtherCredentialFile | share/server/core/classes/CoreLogonMultisite.php:84-87 | the whole `check` outcome (verdict, session, backend, redirect) is unchanged by the credential file not chosen at construction |
| MultisiteProofs.ScanSkipsNonAuthCookie | share/server/core/classes/CoreLogonMultisite.php:107-110 | visiting an extra cookie not named `auth_*` anywhere in the order leaves the scan's result unchanged |
| MultisiteProofs.CheckAuthCookieIgnoresOtherCookie | share/server/core/classes/CoreLogonMultisite.php:77-80 | validating one cookie reads only the cookie of that name: adding a cookie with another name anywhere in the jar changes no verdict |
| MultisiteProofs.CheckAuthIgnoresNonAuthCookie | share/server/core/classes/CoreLogonMultisite.php:107-110 | cookies not named `auth_*` are never examined: adding one anywhere in the jar changes neither the user nor the session |
| MultisiteProofs.ScanFindsOnlyValidCookie | share/server/core/classes/CoreLogonMultisite.php:107-121 | when exactly one `auth_` cookie validates, the scan returns it wherever it sits |
| MultisiteProofs.UniqueValidCookieWins | share/server/core/classes/CoreLogonMultisite.php:104-122 | with one valid and any number of invalid `auth_` cookies, `checkAuth` returns the valid cookie's user and stores its name, regardless of order |
| MultisiteProofs.NoValidCookieRedirects | share/server/core/classes/CoreLogonMultisite.php:136-140 | without a valid cookie, `check` answers `false` with the login redirect, or raises on AJAX; session and backend are untouched |
| MultisiteProofs.ValidEmptyUserRedirects | share/server/core/classes/CoreLogonMultisite.php:136-140 | a valid cookie that names the empty user still leads to the redirect outcome (or the AJAX error) with no trust delegation, although its name was stored in the session |
| MultisiteProofs.RefusedUserNotTrusted | share/server/core/classes/CoreLogonMultisite.php:143-148 | when provisioning refuses the verified user, `check` answers `false` with no redirect and the backend untouched |
| MultisiteProofs.ProvisionedUserTrusted | share/server/core/classes/CoreLogonMultisite.php:150-153 | a verified, provisioned user is trusted with logout disabled, and `check` answers the backend's `isAuthenticated()` verdict |
| MultisiteProofs.TrustNeedsValidCookie | share/server/core/classes/CoreLogonMultisite.php:133-154 | the backend changes, or `check` answers `true`, only when some `auth_` cookie validated first to a non-empty user that provisioning accepted, and that user is the one trusted |

## Left out

- File access (`file`, `file_get_contents`, `file_exists`): file contents and existence are inputs. PHP warnings from reading a missing file are assumed not to abort the request.
- MD5 itself: the digest is an arbitrary function parameter. No property assumes anything about it. `AcceptedCookieWasIssued` names the empty digest as its one exception.
- PHP's loose `!=` on the hash: the model compares strings exactly. PHP compares two numeric strings by value, so a hash like `0e…` can match a different numeric string. That behaviour is not modelled.
- `header()`, `urlencode`, `$_SERVER`, `session_start`/`session_write_close`, and the globals `$AUTH`/`$CORE`/`CONST_AJAX`: these become the `Location` string in the outcome, `Request`, an explicit session map, and `AuthState`/`Backend`.
- `cfg()` and `l()`: configuration values arrive as `Config`. Exception messages, including the configured paths named in the configuration error, are not modelled.
- `verifyUserExists` and the `CoreLogonModule` base class: their code is not part of this model. They appear as the functions of `Backend`.
- PHP's conversion of numeric-string array keys to integers: it applies equally when the table is built and when it is read, so it does not change a lookup.
- PHP's rewriting of cookie names (dots and spaces become underscores) and array-valued cookies.
- Files changing while one `check` runs: a `check` sees one snapshot.
- Bytes: a Dafny `char` stands for one byte of a PHP string. `substr`, `trim`, `explode` and `md5` work on bytes. Every split and trim here is on ASCII characters, so nothing is lost, but multi-byte text is not modelled as such.
- PhpString.Trim: its contract states only the length bound and the absence of whitespace at the ends. `TrimOfPaddedText` states which text is kept.
- Multisite.CheckAuthCookie: its contract states only the unset-cookie case. `ValidateCookieValue` and the lemmas in `MultisiteProofs` state what it accepts.
- Multisite.Check: its contract states only the AJAX and raised-error guarantees. The outcome properties are the lemmas `NoValidCookieRedirects`, `ValidEmptyUserRedirects`, `RefusedUserNotTrusted`, `ProvisionedUserTrusted` and `TrustNeedsValidCookie`. They are stated of `CheckWith`, which `Check` applies to `checkAuthCookie`.
- Multisite.CheckWith: its contract is the same as `Check`'s. The outcome lemmas above state the rest.
