/**
 * The user account of backend/api/models.py: `CustomUser` with its
 * normalising `save()`, the case-insensitive `clean()` check against the
 * user table, `full_name`, and the fixed subscription choices.
 */
module Users {
  import opened Wrappers
  import opened Text

  /** The four choices of `subscription_type`; the default is `Free`. */
  datatype Subscription = Free | Basic | Premium | Enterprise

  /** The value stored in the database for each choice. */
  function SubscriptionCode(s: Subscription): string {
    match s
    case Free => "free"
    case Basic => "basic"
    case Premium => "premium"
    case Enterprise => "enterprise"
  }

  /** Choice validation: only the four stored values are accepted. */
  function ParseSubscription(code: string): (r: Option<Subscription>)
    ensures r.Some? ==> SubscriptionCode(r.value) == code
    ensures r.None? ==> code !in {"free", "basic", "premium", "enterprise"}
  {
    if code == "free" then Some(Free)
    else if code == "basic" then Some(Basic)
    else if code == "premium" then Some(Premium)
    else if code == "enterprise" then Some(Enterprise)
    else None
  }

  /** Every choice survives being stored and read back. */
  lemma SubscriptionRoundTrip(s: Subscription)
    ensures ParseSubscription(SubscriptionCode(s)) == Some(s)
  {
  }

  /**
   * The password column. `Empty` is the empty string a new user row holds
   * before `set_password`: no raw password matches it. `Hashed(raw)` is what
   * `set_password` leaves; hashing is not modelled, it stands for the hash of
   * `raw`, and the raw value is never stored any other way.
   */
  datatype Credential = Empty | Hashed(raw: string)

  /** A stored row of the user table (primary key `id`). */
  datatype UserRow = UserRow(
    id: nat,
    username: string,
    email: string,
    firstName: string,
    lastName: string,
    isStaff: bool,
    isActive: bool)

  /** `value.lower().strip()`, what `save()` stores for username and email. */
  function Normalize(s: string): string {
    Strip(Lower(s))
  }

  /** A normalised value is lower-case with no whitespace at either end. */
  lemma NormalizeShape(s: string)
    ensures IsLower(Normalize(s))
    ensures Normalize(s) != [] ==> !IsSpace(Normalize(s)[0]) && !IsSpace(Normalize(s)[|Normalize(s)| - 1])
  {
    var t := Lower(s);
    forall k | 0 <= k < |Strip(t)| ensures LowerChar(Strip(t)[k]) == Strip(t)[k] {
      StripChars(t, k);
    }
  }

  /** Saving an already saved user changes neither username nor email. */
  lemma NormalizeIdempotent(s: string)
    ensures Normalize(Normalize(s)) == Normalize(s)
  {
    var t := Normalize(s);
    NormalizeShape(s);
    assert Lower(t) == t;
    StripIdempotent(Lower(s));
  }

  /** Django's `__iexact` lookup. */
  predicate SameIgnoringCase(a: string, b: string) {
    Lower(a) == Lower(b)
  }

  /** `f"{first} {last}".strip() or username`. */
  function FullName(first: string, last: string, username: string): string {
    var joined := Strip(first + " " + last);
    if joined == "" then username else joined
  }

  /** With both names blank the username is shown; otherwise the joined names are. */
  lemma FullNameCases(first: string, last: string, username: string)
    ensures IsBlank(first) && IsBlank(last) ==> FullName(first, last, username) == username
    ensures !IsBlank(first) || !IsBlank(last) ==> FullName(first, last, username) == Strip(first + " " + last) != ""
  {
    var j := first + " " + last;
    StripEmpty(j);
    if IsBlank(first) && IsBlank(last) {
      assert forall i :: 0 <= i < |j| ==> IsSpace(j[i]) by {
        forall i | 0 <= i < |j| ensures IsSpace(j[i]) {
          if i < |first| { assert j[i] == first[i]; }
          else if i > |first| { assert j[i] == last[i - |first| - 1]; }
        }
      }
    } else if !IsBlank(first) {
      var i :| 0 <= i < |first| && !IsSpace(first[i]);
      assert j[i] == first[i];
    } else {
      var i :| 0 <= i < |last| && !IsSpace(last[i]);
      assert j[|first| + 1 + i] == last[i];
    }
  }

  /** Names without surrounding whitespace are joined by exactly one space. */
  lemma FullNameOfTidyNames(first: string, last: string, username: string)
    requires first != [] && !IsSpace(first[0]) && !IsSpace(first[|first| - 1])
    requires last != [] && !IsSpace(last[0]) && !IsSpace(last[|last| - 1])
    ensures FullName(first, last, username) == first + " " + last
  {
    var j := first + " " + last;
    StripNoop(j);
  }

  /** The error `clean()` raises. */
  datatype CleanError = DuplicateUsername

  /**
   * Searches the user table for a row other than `selfPk` whose username
   * equals `name` ignoring case (`filter(username__iexact=...).exclude(pk=...)`).
   */
  function FindClash(table: seq<UserRow>, selfPk: Option<nat>, name: string): (r: Option<nat>)
    ensures r.Some? ==> r.value < |table| && Some(table[r.value].id) != selfPk
                        && SameIgnoringCase(table[r.value].username, name)
    ensures r.None? ==> forall i :: 0 <= i < |table| && Some(table[i].id) != selfPk
                          ==> !SameIgnoringCase(table[i].username, name)
  {
    if table == [] then None
    else if Some(table[0].id) != selfPk && SameIgnoringCase(table[0].username, name) then Some(0)
    else match FindClash(table[1..], selfPk, name)
      case Some(k) => Some(k + 1)
      case None => None
  }

  /**
   * `clean()`: a non-empty username clashes when another user (not the one
   * being cleaned; an unsaved user has no primary key) has the same username
   * ignoring case.
   */
  function CleanUser(table: seq<UserRow>, selfPk: Option<nat>, username: string): (r: Option<CleanError>)
    ensures r.Some? <==> username != "" && exists i :: 0 <= i < |table| && Some(table[i].id) != selfPk
                                                   && SameIgnoringCase(table[i].username, Normalize(username))
  {
    if username != "" && FindClash(table, selfPk, Normalize(username)).Some? then Some(DuplicateUsername)
    else None
  }

  /** The model instance: fields that `save()`, `set_password` and the serializer change. */
  class CustomUser {
    var pk: Option<nat>
    var username: string
    var email: string
    var password: Credential
    var firstName: string
    var lastName: string
    var phoneNumber: Option<string>
    var organization: Option<string>
    var jobTitle: Option<string>
    var bio: Option<string>
    var subscriptionType: Subscription
    var isVerified: bool
    var isStaff: bool

    /** A fresh, unsaved instance with the model's defaults. */
    constructor (username: string, email: string)
      ensures this.username == username && this.email == email
      ensures pk == None && password == Empty && firstName == "" && lastName == ""
      ensures phoneNumber == None && organization == None && jobTitle == None && bio == None
      ensures subscriptionType == Free && !isVerified && !isStaff
    {
      pk := None;
      this.username := username;
      this.email := email;
      password := Empty;
      firstName := "";
      lastName := "";
      phoneNumber := None;
      organization := None;
      jobTitle := None;
      bio := None;
      subscriptionType := Free;
      isVerified := false;
      isStaff := false;
    }

    /**
     * `save()`: lower-cases and strips username and email, each only when it
     * is non-empty; since an empty value normalises to itself the guard never
     * matters. Writing the row is the ORM's work and is not modelled.
     */
    method Save()
      modifies this
      ensures username == Normalize(old(username)) && email == Normalize(old(email))
      ensures pk == old(pk) && password == old(password) && firstName == old(firstName)
      ensures lastName == old(lastName) && phoneNumber == old(phoneNumber)
      ensures organization == old(organization) && jobTitle == old(jobTitle) && bio == old(bio)
      ensures subscriptionType == old(subscriptionType) && isVerified == old(isVerified)
      ensures isStaff == old(isStaff)
    {
      if username != "" {
        username := Normalize(username);
      }
      if email != "" {
        email := Normalize(email);
      }
    }

    /** `set_password(raw)`: only the hashed form is kept. */
    method SetPassword(raw: string)
      modifies this`password
      ensures password == Hashed(raw)
    {
      password := Hashed(raw);
    }

    /** The `full_name` property. */
    function FullNameOf(): string
      reads this
    {
      FullName(firstName, lastName, username)
    }

    /** `clean()` run on this instance against the stored user table. */
    function Clean(table: seq<UserRow>): Option<CleanError>
      reads this
    {
      CleanUser(table, pk, username)
    }
  }
}
