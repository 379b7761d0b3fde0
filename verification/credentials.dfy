/**
 * The credential file shared by the `auth.serials` and `htpasswd` formats:
 * one `username:secret` record per line. `LoadAuthFile` builds the
 * username -> per-user secret table the cookie validator looks names up in.
 */
module Credentials {
  import opened Wrappers
  import opened PhpString

  /** One parsed record: the username and its per-user secret. */
  datatype Credential = Credential(user: string, secret: string)

  /**
   * One line of the file: no record when the line has no colon; otherwise the
   * text before the first colon names the user and everything after it, with
   * trailing whitespace (the line end) removed, is the secret.
   */
  function ParseLine(line: string): (r: Option<Credential>)
    ensures r.None? <==> ':' !in line
    ensures r.Some? ==>
              var n := |r.value.user|;
              && n < |line|
              && line[..n] == r.value.user
              && line[n] == ':'
              && ':' !in r.value.user
              && r.value.secret == RTrim(line[n + 1..])
  {
    if ':' !in line then None
    else
      var parts := Explode(':', line, 2);
      assert |parts| == 2;
      assert line == parts[0] + [':'] + parts[1] by {
        assert parts[1..] == [parts[1]];
      }
      assert line[..|parts[0]|] == parts[0];
      assert line[|parts[0]| + 1..] == parts[1];
      Some(Credential(parts[0], RTrim(parts[1])))
  }

  /**
   * `ParseLine` undoes writing a record: a colon-free user, a colon, a secret
   * (which may hold further colons) and a line end parse back to that user
   * and secret.
   */
  lemma ParseLineOfRecord(user: string, secret: string, lineEnd: string)
    requires ':' !in user
    requires secret == [] || !IsPhpSpace(secret[|secret| - 1])
    requires AllSpace(lineEnd)
    ensures ParseLine(user + ":" + secret + lineEnd) == Some(Credential(user, secret))
  {
    var rest := secret + lineEnd;
    var line := user + ":" + secret + lineEnd;
    assert line == user + [':'] + rest;
    assert line[|user|] == ':';
    var parts := [user, rest];
    assert parts[1..] == [rest];
    assert Join(':', parts) == line;
    ExplodeOfJoin(':', parts);
    RTrimOfPaddedText(secret, lineEnd);
  }

  /** `line` holds a record for `user`. */
  predicate DefinesUser(line: string, user: string) {
    ParseLine(line).Some? && ParseLine(line).value.user == user
  }

  /**
   * `loadAuthFile`: the records of `lines`, read in order, each one setting the
   * table entry of its user; the table knows exactly the users some line defines.
   */
  function LoadAuthFile(lines: seq<string>): (users: map<string, string>)
    ensures forall u :: u in users ==> ':' !in u
    ensures |lines| == 0 ==> users == map[]
    decreases |lines|
  {
    if |lines| == 0 then map[]
    else
      var users := LoadAuthFile(lines[..|lines| - 1]);
      match ParseLine(lines[|lines| - 1])
      case None => users
      case Some(c) => users[c.user := c.secret]
  }

  /**
   * The table knows exactly the users some line defines: a line without a
   * colon adds nothing, every other line adds its user.
   */
  lemma {:induction false} LoadAuthFileKeys(lines: seq<string>, user: string)
    ensures user in LoadAuthFile(lines) <==> SomeLineDefines(lines, user)
    decreases |lines|
  {
    if |lines| > 0 {
      var earlier := lines[..|lines| - 1];
      LoadAuthFileKeys(earlier, user);
      LoadAuthFileKeysStep(lines, user);
      DefinedInPrefix(lines, user);
    }
  }

  /** Reading one more line adds the user it defines and no other. */
  lemma LoadAuthFileKeysStep(lines: seq<string>, user: string)
    requires |lines| > 0
    ensures user in LoadAuthFile(lines) <==>
              user in LoadAuthFile(lines[..|lines| - 1]) || DefinesUser(lines[|lines| - 1], user)
  {
  }

  /** Some line of `lines` holds a record for `user`. */
  predicate SomeLineDefines(lines: seq<string>, user: string) {
    exists i :: 0 <= i < |lines| && DefinesUser(lines[i], user)
  }

  /** Some line defines `user` exactly when an earlier one or the last one does. */
  lemma DefinedInPrefix(lines: seq<string>, user: string)
    requires |lines| > 0
    ensures SomeLineDefines(lines, user) <==>
              SomeLineDefines(lines[..|lines| - 1], user) || DefinesUser(lines[|lines| - 1], user)
  {
    var earlier := lines[..|lines| - 1];
    assert forall i :: 0 <= i < |earlier| ==> earlier[i] == lines[i];
  }

  /**
   * Last write wins: a user's secret comes from the last line that defines the
   * user, whatever earlier lines said.
   */
  lemma {:induction false} LoadAuthFileLastLineWins(lines: seq<string>, user: string, i: nat)
    requires i < |lines| && DefinesUser(lines[i], user)
    requires forall j :: i < j < |lines| ==> !DefinesUser(lines[j], user)
    ensures user in LoadAuthFile(lines)
    ensures LoadAuthFile(lines)[user] == ParseLine(lines[i]).value.secret
    decreases |lines|
  {
    var earlier := lines[..|lines| - 1];
    var last := lines[|lines| - 1];
    if i < |lines| - 1 {
      assert !DefinesUser(last, user);
      assert earlier[i] == lines[i];
      assert forall j :: i < j < |earlier| ==> earlier[j] == lines[j];
      LoadAuthFileLastLineWins(earlier, user, i);
      var before := LoadAuthFile(earlier);
      match ParseLine(last)
      case None =>
        assert LoadAuthFile(lines) == before;
      case Some(c) =>
        assert c.user != user;
        assert LoadAuthFile(lines) == before[c.user := c.secret];
    } else {
      var c := ParseLine(last).value;
      assert LoadAuthFile(lines) == LoadAuthFile(earlier)[c.user := c.secret];
    }
  }
}
