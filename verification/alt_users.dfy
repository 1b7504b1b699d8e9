/**
 * The alternate `CustomUser` of backend/api/custom_user.py. It differs from
 * backend/api/models.py in two ways: the username is the primary key, and
 * `clean()` also checks the email. Its `save()` and `full_name` are the same
 * code as in models.py and are modelled by `Users.CustomUser.Save` and
 * `Users.FullName`; it adds `display_name`.
 */
module AltUsers {
  import opened Wrappers
  import opened Text
  import opened Users

  /** A stored row; `username` is the primary key. */
  datatype StoredUser = StoredUser(username: string, email: string)

  /** The two errors `clean()` raises, username first. */
  datatype AltCleanError = UsernameTaken | EmailTaken

  /** A row other than the excluded primary key with the same username, ignoring case. */
  predicate UsernameClash(table: seq<StoredUser>, excluded: Option<string>, username: string) {
    username != "" && exists i :: 0 <= i < |table| && Some(table[i].username) != excluded
                                   && SameIgnoringCase(table[i].username, Normalize(username))
  }

  /** A row other than the excluded primary key with the same email, ignoring case. */
  predicate EmailClash(table: seq<StoredUser>, excluded: Option<string>, email: string) {
    email != "" && exists i :: 0 <= i < |table| && Some(table[i].username) != excluded
                               && SameIgnoringCase(table[i].email, Normalize(email))
  }

  /** The first row, other than `excluded`, whose `key` matches `value` ignoring case. */
  function FirstOther(table: seq<StoredUser>, excluded: Option<string>, value: string, byEmail: bool): (r: bool)
    ensures r <==> exists i :: 0 <= i < |table| && Some(table[i].username) != excluded
                               && SameIgnoringCase(if byEmail then table[i].email else table[i].username, value)
  {
    if table == [] then false
    else if Some(table[0].username) != excluded
            && SameIgnoringCase(if byEmail then table[0].email else table[0].username, value) then true
    else
      var rest := FirstOther(table[1..], excluded, value, byEmail);
      assert rest ==> exists i :: 0 <= i < |table| && Some(table[i].username) != excluded
                               && SameIgnoringCase(if byEmail then table[i].email else table[i].username, value) by {
        if rest {
          var i :| 0 <= i < |table[1..]| && Some(table[1..][i].username) != excluded
                   && SameIgnoringCase(if byEmail then table[1..][i].email else table[1..][i].username, value);
          assert table[1..][i] == table[i + 1];
        }
      }
      rest
  }

  /**
   * `clean()` AS WRITTEN: `.exclude(pk=self.pk)` with the username as primary
   * key excludes every stored row whose username is exactly the instance's
   * current username, whether or not that row is the instance itself.
   */
  function CleanAsWritten(table: seq<StoredUser>, username: string, email: string): (r: Option<AltCleanError>)
    ensures r == Some(UsernameTaken) <==> UsernameClash(table, Some(username), username)
    ensures r == Some(EmailTaken) <==> !UsernameClash(table, Some(username), username)
                                       && EmailClash(table, Some(username), email)
  {
    CleanExcluding(table, Some(username), username, email)
  }

  /**
   * `clean()` as intended: the row excluded is the one the instance was loaded
   * from (`stored`, absent for a user not yet saved).
   */
  function CleanExcluding(table: seq<StoredUser>, stored: Option<string>, username: string, email: string): (r: Option<AltCleanError>)
    ensures r == Some(UsernameTaken) <==> UsernameClash(table, stored, username)
    ensures r == Some(EmailTaken) <==> !UsernameClash(table, stored, username) && EmailClash(table, stored, email)
  {
    if username != "" && FirstOther(table, stored, Normalize(username), false) then Some(UsernameTaken)
    else if email != "" && FirstOther(table, stored, Normalize(email), true) then Some(EmailTaken)
    else None
  }

  /**
   * The discrepancy: a new user who types an existing username exactly (and
   * the same email) passes the as-written `clean()`; saving would then
   * overwrite the stored row with that primary key.
   */
  lemma CleanAsWrittenMissesExactDuplicate()
    ensures CleanAsWritten([StoredUser("alice", "alice@example.org")], "alice", "alice@example.org") == None
  {
    var t := [StoredUser("alice", "alice@example.org")];
    assert !UsernameClash(t, Some("alice"), "alice");
    assert !EmailClash(t, Some("alice"), "alice@example.org");
  }

  /**
   * The intended property: a user not yet saved is rejected exactly when its
   * username clashes with a stored one, and otherwise when its email does.
   */
  lemma {:induction false} CleanRejectsNewDuplicates(table: seq<StoredUser>, username: string, email: string)
    ensures CleanExcluding(table, None, username, email) == Some(UsernameTaken)
            <==> username != "" && exists i :: 0 <= i < |table| && SameIgnoringCase(table[i].username, Normalize(username))
    ensures CleanExcluding(table, None, username, email) == None
            ==> forall i :: 0 <= i < |table| ==>
                  (username == "" || !SameIgnoringCase(table[i].username, Normalize(username)))
                  && (email == "" || !SameIgnoringCase(table[i].email, Normalize(email)))
  {
    if username != "" && exists i :: 0 <= i < |table| && SameIgnoringCase(table[i].username, Normalize(username)) {
      var i :| 0 <= i < |table| && SameIgnoringCase(table[i].username, Normalize(username));
      assert Some(table[i].username) != None;
    }
  }

  /** The `display_name` property. */
  function DisplayName(first: string, last: string, username: string): string {
    if first != "" || last != "" then FullName(first, last, username) else username
  }

  /**
   * `display_name` always equals `full_name`: with both names empty,
   * `full_name` strips the lone space to "" and falls back to the username too.
   */
  lemma DisplayNameIsFullName(first: string, last: string, username: string)
    ensures DisplayName(first, last, username) == FullName(first, last, username)
  {
    if first == "" && last == "" {
      FullNameCases(first, last, username);
    }
  }
}
