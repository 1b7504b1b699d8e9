/**
 * The serializer logic of backend/api/serializers.py that goes beyond copying
 * columns: the computed fields of `MyReportsSerializer`, the report flag of
 * `CompanyListSerializer`, and `UserSerializer.create` / `update`.
 */
module Serializers {
  import opened Wrappers
  import opened Text
  import opened Users
  import opened Catalog

  /** `obj.company.<column> or ''`, used for `esg_sector` and `esg_rating`. */
  function TextOrBlank(c: Company, f: Field): (r: string)
    ensures r == "" <==> !Truthy(c.Column(f))
    ensures r != "" ==> f in c.text && r == c.text[f]
  {
    if Truthy(c.Column(f)) then c.Column(f).value else ""
  }

  /** `get_report_filename`: the stored file name when the report flag is set, else None. */
  function ReportFilename(c: Company): (r: Option<string>)
    ensures c.hasPdfReport ==> r == c.pdfFilename
    ensures !c.hasPdfReport ==> r.None?
  {
    if c.hasPdfReport then c.pdfFilename else None
  }

  /** Python's `str()` of a nullable string inside an f-string. */
  function PyStr(s: Option<string>): string {
    if s.Some? then s.value else "None"
  }

  const DownloadPrefix: string := "/api/reports/download/"

  /**
   * `get_download_url`: present exactly when the report flag is set and the
   * file name is non-empty; it names the company, not the file.
   */
  function DownloadUrl(c: Company): (r: Option<string>)
    ensures r.Some? <==> c.hasPdfReport && Truthy(c.pdfFilename)
    ensures r.Some? ==> StartsWith(r.value, DownloadPrefix) && EndsWith(r.value, "/")
  {
    if c.hasPdfReport && Truthy(c.pdfFilename) then Some(DownloadPrefix + PyStr(c.Name()) + "/") else None
  }

  /**
   * A segment that can never reach the `<str:company_name>` route with that
   * name: an empty one, or one holding `/`, which the `str` converter never
   * matches, or `?` or `#`, which end the path.
   */
  predicate BreaksRoute(seg: string) {
    seg == "" || exists i :: 0 <= i < |seg| && (seg[i] == '/' || seg[i] == '?' || seg[i] == '#')
  }

  /**
   * A segment the route hands back unchanged: besides not breaking the route,
   * it has no `%`, which the server percent-decodes, no `\`, which clients may
   * turn into `/`, and is not a `.` or `..` dot segment, which clients remove.
   */
  predicate PlainSegment(seg: string) {
    !BreaksRoute(seg) && seg != "." && seg != ".."
    && forall i :: 0 <= i < |seg| ==> seg[i] != '%' && seg[i] != '\\'
  }

  /** How the download route reads a URL's company segment. */
  datatype Route =
    | Reads(name: string)  // the view receives this company name
    | NoMatch              // no download view receives the URL
    | Unmodelled           // decoding or client normalisation decides

  /**
   * The company name the route `reports/download/<str:company_name>/` reads
   * from a URL: the segment between the prefix and the trailing slash when it
   * is plain, no match when that segment breaks the route, and unmodelled
   * otherwise.
   */
  function UrlCompany(url: string): (r: Route)
    ensures r.Reads? ==> StartsWith(url, DownloadPrefix) && PlainSegment(r.name)
                         && url == DownloadPrefix + r.name + "/"
  {
    if |DownloadPrefix| < |url| && StartsWith(url, DownloadPrefix) && url[|url| - 1] == '/' then
      var seg := url[|DownloadPrefix|..|url| - 1];
      assert url == DownloadPrefix + seg + "/";
      if BreaksRoute(seg) then NoMatch
      else if PlainSegment(seg) then Reads(seg)
      else Unmodelled
    else NoMatch
  }

  /**
   * The URL leads back to the company it was built for when the company's
   * name is a plain segment, and a name that is empty or holds `/`, `?` or
   * `#` gives a link that reaches no download view. Names with `%` or `\`,
   * and the names `.` and `..`, are not covered. A company that has a URL
   * also shows its file name.
   */
  lemma DownloadUrlRoundTrip(c: Company)
    ensures DownloadUrl(c).Some? && PlainSegment(PyStr(c.Name())) ==> UrlCompany(DownloadUrl(c).value) == Reads(PyStr(c.Name()))
    ensures DownloadUrl(c).Some? && BreaksRoute(PyStr(c.Name())) ==> UrlCompany(DownloadUrl(c).value) == NoMatch
    ensures DownloadUrl(c).Some? ==> ReportFilename(c).Some? && ReportFilename(c).value != ""
  {
    if DownloadUrl(c).Some? {
      var url := DownloadUrl(c).value;
      assert url[|DownloadPrefix|..|url| - 1] == PyStr(c.Name());
    }
  }

  /**
   * `CompanyListSerializer.get_has_pdf_report`: a file name that is present
   * and not all whitespace; the stored `has_pdf_report` column is not read.
   */
  function HasPdfReportListed(c: Company): (r: bool)
    ensures r <==> c.pdfFilename.Some? && !IsBlank(c.pdfFilename.value)
  {
    if c.pdfFilename.Some? then StripEmpty(c.pdfFilename.value); c.pdfFilename.value != "" && Strip(c.pdfFilename.value) != ""
    else false
  }

  /**
   * The listed flag and the stored flag disagree in both directions: a file
   * name with the flag unset is listed as available, and a blank file name
   * with the flag set is not, although `my_reports` offers a download URL for it.
   */
  lemma ListedFlagIgnoresStoredFlag()
    ensures HasPdfReportListed(Company("INE000000001", map[], Some("acme.pdf"), false))
    ensures !HasPdfReportListed(Company("INE000000002", map[], Some(" "), true))
    ensures DownloadUrl(Company("INE000000002", map[], Some(" "), true)).Some?
  {
    assert IsSpace(' ');
    assert !IsSpace('a');
    assert "acme.pdf"[0] == 'a';
  }

  /** The `UserSerializer` fields, as stored on a user. */
  datatype Profile = Profile(
    username: string,
    email: string,
    password: Credential,
    firstName: string,
    lastName: string,
    phoneNumber: Option<string>,
    organization: Option<string>,
    jobTitle: Option<string>,
    bio: Option<string>,
    subscriptionType: Subscription,
    isVerified: bool)

  /** The serializer fields of a user instance. */
  function ProfileOf(u: CustomUser): Profile
    reads u
  {
    Profile(u.username, u.email, u.password, u.firstName, u.lastName, u.phoneNumber, u.organization,
            u.jobTitle, u.bio, u.subscriptionType, u.isVerified)
  }

  /** One item of `validated_data`: a field name and its validated value. */
  datatype Update =
    | UsernameTo(username: string)
    | EmailTo(email: string)
    | PasswordTo(raw: string)
    | FirstNameTo(firstName: string)
    | LastNameTo(lastName: string)
    | PhoneNumberTo(phoneNumber: Option<string>)
    | OrganizationTo(organization: Option<string>)
    | JobTitleTo(jobTitle: Option<string>)
    | BioTo(bio: Option<string>)
    | SubscriptionTo(subscriptionType: Subscription)
    | VerifiedTo(isVerified: bool)

  /** One step of the `update` loop: `set_password` for the password, `setattr` otherwise. */
  function Apply(p: Profile, u: Update): Profile {
    match u
    case UsernameTo(v) => p.(username := v)
    case EmailTo(v) => p.(email := v)
    case PasswordTo(raw) => p.(password := Hashed(raw))
    case FirstNameTo(v) => p.(firstName := v)
    case LastNameTo(v) => p.(lastName := v)
    case PhoneNumberTo(v) => p.(phoneNumber := v)
    case OrganizationTo(v) => p.(organization := v)
    case JobTitleTo(v) => p.(jobTitle := v)
    case BioTo(v) => p.(bio := v)
    case SubscriptionTo(v) => p.(subscriptionType := v)
    case VerifiedTo(v) => p.(isVerified := v)
  }

  /** The whole loop, item by item. */
  function ApplyAll(p: Profile, data: seq<Update>): Profile
    decreases |data|
  {
    if data == [] then p else Apply(ApplyAll(p, data[..|data| - 1]), data[|data| - 1])
  }

  /** What `save()` does to the serializer fields. */
  function Saved(p: Profile): Profile {
    p.(username := Normalize(p.username), email := Normalize(p.email))
  }

  /** The serializer fields by name. */
  datatype Attr =
    | UsernameAttr | EmailAttr | PasswordAttr | FirstNameAttr | LastNameAttr | PhoneNumberAttr
    | OrganizationAttr | JobTitleAttr | BioAttr | SubscriptionAttr | VerifiedAttr

  /** A field's value, whatever its type. */
  datatype Value = Text(s: string) | MaybeText(o: Option<string>) | Plan(plan: Subscription) | Flag(b: bool) | Secret(c: Credential)

  function AttrOf(u: Update): Attr {
    match u
    case UsernameTo(_) => UsernameAttr
    case EmailTo(_) => EmailAttr
    case PasswordTo(_) => PasswordAttr
    case FirstNameTo(_) => FirstNameAttr
    case LastNameTo(_) => LastNameAttr
    case PhoneNumberTo(_) => PhoneNumberAttr
    case OrganizationTo(_) => OrganizationAttr
    case JobTitleTo(_) => JobTitleAttr
    case BioTo(_) => BioAttr
    case SubscriptionTo(_) => SubscriptionAttr
    case VerifiedTo(_) => VerifiedAttr
  }

  /** The value an item stores: the password only in hashed form. */
  function ValueOf(u: Update): Value {
    match u
    case UsernameTo(v) => Text(v)
    case EmailTo(v) => Text(v)
    case PasswordTo(raw) => Secret(Hashed(raw))
    case FirstNameTo(v) => Text(v)
    case LastNameTo(v) => Text(v)
    case PhoneNumberTo(v) => MaybeText(v)
    case OrganizationTo(v) => MaybeText(v)
    case JobTitleTo(v) => MaybeText(v)
    case BioTo(v) => MaybeText(v)
    case SubscriptionTo(v) => Plan(v)
    case VerifiedTo(v) => Flag(v)
  }

  function Get(p: Profile, a: Attr): Value {
    match a
    case UsernameAttr => Text(p.username)
    case EmailAttr => Text(p.email)
    case PasswordAttr => Secret(p.password)
    case FirstNameAttr => Text(p.firstName)
    case LastNameAttr => Text(p.lastName)
    case PhoneNumberAttr => MaybeText(p.phoneNumber)
    case OrganizationAttr => MaybeText(p.organization)
    case JobTitleAttr => MaybeText(p.jobTitle)
    case BioAttr => MaybeText(p.bio)
    case SubscriptionAttr => Plan(p.subscriptionType)
    case VerifiedAttr => Flag(p.isVerified)
  }

  /** The value of the last item for field `a`, if there is one. */
  function LastUpdate(data: seq<Update>, a: Attr): Option<Value>
    decreases |data|
  {
    if data == [] then None
    else if AttrOf(data[|data| - 1]) == a then Some(ValueOf(data[|data| - 1]))
    else LastUpdate(data[..|data| - 1], a)
  }

  /** One item changes its own field, as `ValueOf` says, and no other. */
  lemma ApplyOne(p: Profile, u: Update, a: Attr)
    ensures Get(Apply(p, u), a) == if AttrOf(u) == a then ValueOf(u) else Get(p, a)
  {
  }

  /**
   * After the loop each field holds the value of its last item, the password
   * hashed; a field without an item keeps its old value.
   */
  lemma {:induction false} ApplyAllLastWins(p: Profile, data: seq<Update>, a: Attr)
    ensures Get(ApplyAll(p, data), a) == match LastUpdate(data, a) case Some(v) => v case None => Get(p, a)
    decreases |data|
  {
    if data != [] {
      ApplyAllLastWins(p, data[..|data| - 1], a);
      ApplyOne(ApplyAll(p, data[..|data| - 1]), data[|data| - 1], a);
    }
  }

  /** `setattr(user, attr, value)` for an item other than the password. */
  method SetField(user: CustomUser, u: Update)
    requires !u.PasswordTo?
    modifies user
    ensures ProfileOf(user) == Apply(old(ProfileOf(user)), u)
    ensures user.pk == old(user.pk) && user.isStaff == old(user.isStaff)
  {
    match u
    case UsernameTo(v) => user.username := v;
    case EmailTo(v) => user.email := v;
    case FirstNameTo(v) => user.firstName := v;
    case LastNameTo(v) => user.lastName := v;
    case PhoneNumberTo(v) => user.phoneNumber := v;
    case OrganizationTo(v) => user.organization := v;
    case JobTitleTo(v) => user.jobTitle := v;
    case BioTo(v) => user.bio := v;
    case SubscriptionTo(v) => user.subscriptionType := v;
    case VerifiedTo(v) => user.isVerified := v;
  }

  /** The `for attr, value in validated_data.items()` loop on a user instance. */
  method SetAttributes(user: CustomUser, data: seq<Update>)
    modifies user
    ensures ProfileOf(user) == ApplyAll(old(ProfileOf(user)), data)
    ensures user.pk == old(user.pk) && user.isStaff == old(user.isStaff)
  {
    ghost var start := ProfileOf(user);
    for i := 0 to |data|
      invariant ProfileOf(user) == ApplyAll(start, data[..i])
      invariant user.pk == old(user.pk) && user.isStaff == old(user.isStaff)
    {
      assert data[..i + 1][..i] == data[..i];
      ghost var before := ProfileOf(user);
      if data[i].PasswordTo? {
        user.SetPassword(data[i].raw);
        assert ProfileOf(user) == before.(password := Hashed(data[i].raw));
      } else {
        SetField(user, data[i]);
      }
    }
    assert data[..|data|] == data;
  }

  /** `UserSerializer.update`: the loop, then one `save()`. */
  method UpdateUser(user: CustomUser, data: seq<Update>)
    modifies user
    ensures ProfileOf(user) == Saved(ApplyAll(old(ProfileOf(user)), data))
    ensures user.pk == old(user.pk) && user.isStaff == old(user.isStaff)
  {
    SetAttributes(user, data);
    user.Save();
  }

  /** A new user before `create` fills it: the model's defaults. */
  function Fresh(username: string, email: string): Profile {
    Profile(username, email, Empty, "", "", None, None, None, None, Free, false)
  }

  /**
   * `UserSerializer.create`: the password is taken out of the validated data,
   * the user is created from the rest (which saves it), then the password is
   * set through `set_password` and the user saved again. The second save
   * changes nothing else.
   */
  method CreateUser(username: string, email: string, password: string, rest: seq<Update>) returns (user: CustomUser)
    requires forall i :: 0 <= i < |rest| ==> !rest[i].PasswordTo? && !rest[i].UsernameTo? && !rest[i].EmailTo?
    ensures fresh(user)
    ensures ProfileOf(user) == Saved(ApplyAll(Fresh(username, email), rest)).(password := Hashed(password))
    ensures !user.isStaff
  {
    user := new CustomUser(username, email);
    assert ProfileOf(user) == Fresh(username, email);
    SetAttributes(user, rest);
    ghost var filled := ApplyAll(Fresh(username, email), rest);
    user.Save();
    assert ProfileOf(user) == Saved(filled);
    user.SetPassword(password);
    ghost var target := Saved(filled).(password := Hashed(password));
    assert ProfileOf(user) == target;
    user.Save();
    NormalizeIdempotent(filled.username);
    NormalizeIdempotent(filled.email);
    assert Saved(target) == target;
  }
}
