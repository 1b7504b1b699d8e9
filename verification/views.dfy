/**
 * The ledger views of backend/api/views.py. Each view is modelled by its
 * decision (a `Status`) and its effect on the tables. Where views.py defines
 * a view twice, the later definition is the one the URL table reaches; both
 * are modelled, the earlier one with `First` in its name.
 */
module Views {
  import opened Wrappers
  import opened Text
  import opened Users
  import opened Catalog
  import opened Store
  import LoadExcel
  import ExcelSync
  import PdfMatching

  /** The HTTP status a view answers with. */
  datatype Status = Ok | Created | BadRequest | Forbidden | NotFound | ServerError

  /** A string request parameter that is present and truthy. */
  predicate Given(p: Option<string>) {
    p.Some? && p.value != ""
  }

  /** An id request parameter that is present and truthy (0 is falsy). */
  predicate GivenId(p: Option<int>) {
    p.Some? && p.value != 0
  }

  /** The rest of the database, which the ledger views never touch. */
  twostate predicate OthersUnchanged(db: Database)
    reads db
  {
    db.users == old(db.users) && db.companies == old(db.companies)
    && db.reports == old(db.reports) && db.owned == old(db.owned)
  }

  /**
   * `assign_company_to_user`: missing parameters are a 400; an unknown user
   * or ISIN a 404; an inactive row for the pair is reactivated in place with
   * the requester as grantor and the new notes (200); an active row is a 400;
   * otherwise one new active row is created (201). The ledger never gets a
   * second row for a pair (`db.Valid()`). `notes` is
   * `request.data.get('notes', '')`: `Some("")` when the field is absent,
   * `None` when the client sends null, and it is stored as it comes; the same
   * holds in the two other views that take notes.
   */
  method AssignCompanyToUser(db: Database, requester: nat, userId: Option<int>, isin: Option<string>, notes: Option<string>)
    returns (status: Status)
    requires db.Valid()
    requires requester in UserIds(db.users)
    modifies db
    ensures db.Valid() && OthersUnchanged(db)
    ensures !GivenId(userId) || !Given(isin) ==> status == BadRequest && unchanged(db)
    ensures GivenId(userId) && Given(isin) && UserIndex(db.users, userId.value).None? ==> status == NotFound && unchanged(db)
    ensures GivenId(userId) && Given(isin) && UserIndex(db.users, userId.value).Some? && isin.value !in Isins(db.companies) ==>
                status == NotFound && unchanged(db)
    ensures GivenId(userId) && Given(isin) && UserIndex(db.users, userId.value).Some? && isin.value in Isins(db.companies) ==>
              var uid := db.users[UserIndex(db.users, userId.value).value].id;
              match PairIndex(old(db.assignments), uid, isin.value)
              case Some(k) =>
                if old(db.assignments)[k].isActive then status == BadRequest && unchanged(db)
                else status == Ok && db.nextId == old(db.nextId) && db.clock == old(db.clock)
                     && db.assignments == old(db.assignments)[k := old(db.assignments)[k].(isActive := true, assignedBy := Some(requester), notes := notes)]
              case None =>
                status == Created && db.nextId == old(db.nextId) + 1 && db.clock == old(db.clock) + 1
                && db.assignments == old(db.assignments) + [Assignment(old(db.nextId), uid, isin.value, Some(requester), old(db.clock), true, notes)]
  {
    if !GivenId(userId) || !Given(isin) {
      return BadRequest;
    }
    var u := UserIndex(db.users, userId.value);
    if u.None? {
      return NotFound;
    }
    if IsinIndex(db.companies, isin.value).None? {
      return NotFound;
    }
    var uid := db.users[u.value].id;
    match PairIndex(db.assignments, uid, isin.value)
    case Some(k) =>
      if db.assignments[k].isActive {
        return BadRequest;
      }
      db.UpdateAssignment(k, true, Some(requester), notes);
      status := Ok;
    case None =>
      var _ := db.AddAssignment(uid, isin.value, Some(requester), notes);
      status := Created;
  }

  /**
   * `assign_available_report`, first definition: lookups by exact username and
   * ISIN through `get_object_or_404` inside `except Exception`, so an unknown
   * one is a 500; an existing row for the pair, active or not, is left as it is
   * (200); a new row gets the requester as grantor and the notes (201).
   */
  method AssignAvailableReportFirst(db: Database, requester: nat, username: Option<string>, isin: Option<string>, notes: Option<string>)
    returns (status: Status)
    requires db.Valid()
    requires requester in UserIds(db.users)
    modifies db
    ensures db.Valid() && OthersUnchanged(db)
    ensures !Given(username) || !Given(isin) ==> status == BadRequest && unchanged(db)
    ensures Given(username) && Given(isin) && (UserNamed(db.users, username.value).None? || isin.value !in Isins(db.companies)) ==>
                status == ServerError && unchanged(db)
    ensures Given(username) && Given(isin) && UserNamed(db.users, username.value).Some? && isin.value in Isins(db.companies) ==>
              var uid := db.users[UserNamed(db.users, username.value).value].id;
              if PairIndex(old(db.assignments), uid, isin.value).Some? then status == Ok && unchanged(db)
              else status == Created
                   && db.assignments == old(db.assignments) + [Assignment(old(db.nextId), uid, isin.value, Some(requester), old(db.clock), true, notes)]
                   && db.nextId == old(db.nextId) + 1 && db.clock == old(db.clock) + 1
  {
    if !Given(username) || !Given(isin) {
      return BadRequest;
    }
    var u := UserNamed(db.users, username.value);
    if u.None? || IsinIndex(db.companies, isin.value).None? {
      return ServerError;
    }
    var uid := db.users[u.value].id;
    if PairIndex(db.assignments, uid, isin.value).Some? {
      return Ok;
    }
    var _ := db.AddAssignment(uid, isin.value, Some(requester), notes);
    status := Created;
  }

  /**
   * `assign_available_report`, the live definition: the same decisions, but a
   * new row records no grantor and no notes. A repeat call for a pair finds
   * the row and answers 200 without touching it, so an inactive row stays
   * inactive.
   */
  method AssignAvailableReport(db: Database, username: Option<string>, isin: Option<string>) returns (status: Status)
    requires db.Valid()
    modifies db
    ensures db.Valid() && OthersUnchanged(db)
    ensures !Given(username) || !Given(isin) ==> status == BadRequest && unchanged(db)
    ensures Given(username) && Given(isin) && (UserNamed(db.users, username.value).None? || isin.value !in Isins(db.companies)) ==>
                status == ServerError && unchanged(db)
    ensures Given(username) && Given(isin) && UserNamed(db.users, username.value).Some? && isin.value in Isins(db.companies) ==>
              var uid := db.users[UserNamed(db.users, username.value).value].id;
              PairIndex(db.assignments, uid, isin.value).Some?
              && if PairIndex(old(db.assignments), uid, isin.value).Some? then status == Ok && unchanged(db)
                 else status == Created
                      && db.assignments == old(db.assignments) + [Assignment(old(db.nextId), uid, isin.value, None, old(db.clock), true, None)]
                      && db.nextId == old(db.nextId) + 1 && db.clock == old(db.clock) + 1
  {
    if !Given(username) || !Given(isin) {
      return BadRequest;
    }
    var u := UserNamed(db.users, username.value);
    if u.None? || IsinIndex(db.companies, isin.value).None? {
      return ServerError;
    }
    var uid := db.users[u.value].id;
    if PairIndex(db.assignments, uid, isin.value).Some? {
      return Ok;
    }
    var _ := db.AddAssignment(uid, isin.value, None, None);
    assert db.assignments[|db.assignments| - 1].user == uid && db.assignments[|db.assignments| - 1].isin == isin.value;
    status := Created;
  }

  /** `remove_company_from_user`: an unknown id is a 500; otherwise that one row goes. */
  method RemoveCompanyFromUser(db: Database, assignmentId: int) returns (status: Status)
    requires db.Valid()
    modifies db
    ensures db.Valid() && OthersUnchanged(db)
    ensures RowIndex(old(db.assignments), assignmentId).None? ==> status == ServerError && unchanged(db)
    ensures RowIndex(old(db.assignments), assignmentId).Some? ==>
              status == Ok && db.assignments == Filter(old(db.assignments), NotId(assignmentId as nat))
  {
    var k := RowIndex(db.assignments, assignmentId);
    if k.None? {
      return ServerError;
    }
    db.DeleteAssignmentAt(k.value);
    status := Ok;
  }

  /**
   * `remove_all_companies_from_user`: an unknown user is a 500; otherwise every
   * row of the user goes, active or not, and the count of them is reported.
   */
  method RemoveAllCompaniesFromUser(db: Database, userId: int) returns (status: Status, count: nat)
    requires db.Valid()
    modifies db
    ensures db.Valid() && OthersUnchanged(db)
    ensures UserIndex(old(db.users), userId).None? ==> status == ServerError && count == 0 && unchanged(db)
    ensures UserIndex(old(db.users), userId).Some? ==>
              status == Ok
              && db.assignments == Filter(old(db.assignments), NotOfUser(userId as nat))
              && count == Count(old(db.assignments), OfUser(userId as nat))
              && |db.assignments| == |old(db.assignments)| - count
  {
    var k := UserIndex(db.users, userId);
    if k.None? {
      return ServerError, 0;
    }
    var uid := db.users[k.value].id;
    FilterCount(db.assignments, OfUser(uid), NotOfUser(uid));
    count := db.DeleteAssignmentsOf(uid);
    status := Ok;
  }

  /**
   * `delete_user`: an unknown id is a 500 (the 404 is caught); a staff target
   * is refused, and so is the requester's own account; otherwise the user is
   * deleted and the ledger cascades.
   */
  method DeleteUser(db: Database, requester: nat, userId: int) returns (status: Status)
    requires db.Valid()
    modifies db
    ensures db.Valid()
    ensures UserIndex(old(db.users), userId).None? ==> status == ServerError && unchanged(db)
    ensures UserIndex(old(db.users), userId).Some? && (old(db.users)[UserIndex(old(db.users), userId).value].isStaff || userId == requester) ==>
                status == Forbidden && unchanged(db)
    ensures UserIndex(old(db.users), userId).Some? && !old(db.users)[UserIndex(old(db.users), userId).value].isStaff && userId != requester ==>
              var k := UserIndex(old(db.users), userId).value;
              status == Ok
              && db.users == old(db.users)[..k] + old(db.users)[k + 1..]
              && db.assignments == CascadeUser(old(db.assignments), userId as nat)
              && db.owned == OwnedCascade(old(db.owned), userId as nat)
              && db.companies == old(db.companies) && db.reports == old(db.reports)
  {
    var k := UserIndex(db.users, userId);
    if k.None? {
      return ServerError;
    }
    if db.users[k.value].isStaff {
      return Forbidden;
    }
    if db.users[k.value].id == requester {
      return Forbidden;
    }
    db.DeleteUserAt(k.value);
    status := Ok;
  }

  /** Whether the company a row points at is named `name`, exactly or ignoring case. */
  predicate NamedAs(c: Company, name: string, exact: bool) {
    c.Name().Some? && if exact then c.Name().value == name else SameIgnoringCase(c.Name().value, name)
  }

  /** An active row of `user` for a company named `name`. */
  predicate Entitles(a: Assignment, companies: seq<Company>, user: nat, name: string, exact: bool) {
    a.user == user && a.isActive
    && match IsinIndex(companies, a.isin)
       case Some(j) => NamedAs(companies[j], name, exact)
       case None => false
  }

  /** The newest row that `Entitles` (`.first()` under `-assigned_at`). */
  function NewestEntitled(rows: seq<Assignment>, companies: seq<Company>, user: nat, name: string, exact: bool): (r: Option<nat>)
    ensures r.Some? ==> r.value < |rows| && Entitles(rows[r.value], companies, user, name, exact)
                        && forall j :: r.value < j < |rows| ==> !Entitles(rows[j], companies, user, name, exact)
    ensures r.None? ==> forall j :: 0 <= j < |rows| ==> !Entitles(rows[j], companies, user, name, exact)
    decreases |rows|
  {
    if rows == [] then None
    else if Entitles(rows[|rows| - 1], companies, user, name, exact) then Some(|rows| - 1)
    else NewestEntitled(rows[..|rows| - 1], companies, user, name, exact)
  }

  /**
   * `request_company_report`: a missing name is a 400, and so is a name for
   * which the caller already holds an active row (ignoring case); otherwise
   * the request is acknowledged and nothing is stored.
   */
  function RequestCompanyReport(rows: seq<Assignment>, companies: seq<Company>, requester: nat, companyName: Option<string>): (r: Status)
    ensures r == Ok <==> Given(companyName)
                         && forall j :: 0 <= j < |rows| ==> !Entitles(rows[j], companies, requester, companyName.value, false)
    ensures r != Ok ==> r == BadRequest
  {
    if !Given(companyName) then BadRequest
    else if NewestEntitled(rows, companies, requester, companyName.value, false).Some? then BadRequest
    else Ok
  }

  /** A file in the reports directory: it opens, or opening it fails. */
  datatype FileState = Readable | Unreadable

  /** The reports directory: file name to state; a name not in the map does not exist. */
  type Disk = map<string, FileState>

  /** Serving a stored file name: absent is a 404, unreadable a 500. */
  function Serve(file: string, disk: Disk): Status {
    if file !in disk then NotFound
    else if disk[file] == Readable then Ok
    else ServerError
  }

  /**
   * `download_company_report` / `view_company_report`, first definitions: the
   * caller needs an active row for a company whose name is exactly `name`
   * (403 otherwise, before anything else); the newest such row's company must
   * have a file name and the report flag (404 otherwise); then the file is
   * served.
   */
  function FirstGateway(rows: seq<Assignment>, companies: seq<Company>, requester: nat, name: string, disk: Disk): (r: Status)
    ensures r == Forbidden <==> forall j :: 0 <= j < |rows| ==> !Entitles(rows[j], companies, requester, name, true)
    ensures r == Ok ==> exists j :: 0 <= j < |rows| && Entitles(rows[j], companies, requester, name, true)
                                    && var c := companies[IsinIndex(companies, rows[j].isin).value];
                                       Truthy(c.pdfFilename) && c.hasPdfReport && c.pdfFilename.value in disk
    ensures r == NotFound <==>
              NewestEntitled(rows, companies, requester, name, true).Some?
              && var k := NewestEntitled(rows, companies, requester, name, true).value;
                 var c := companies[IsinIndex(companies, rows[k].isin).value];
                 !Truthy(c.pdfFilename) || !c.hasPdfReport || c.pdfFilename.value !in disk
    ensures r == Ok <==>
              NewestEntitled(rows, companies, requester, name, true).Some?
              && var k := NewestEntitled(rows, companies, requester, name, true).value;
                 var c := companies[IsinIndex(companies, rows[k].isin).value];
                 Truthy(c.pdfFilename) && c.hasPdfReport && c.pdfFilename.value in disk && disk[c.pdfFilename.value] == Readable
    ensures r == ServerError <==>
              NewestEntitled(rows, companies, requester, name, true).Some?
              && var k := NewestEntitled(rows, companies, requester, name, true).value;
                 var c := companies[IsinIndex(companies, rows[k].isin).value];
                 Truthy(c.pdfFilename) && c.hasPdfReport && c.pdfFilename.value in disk && disk[c.pdfFilename.value] == Unreadable
  {
    match NewestEntitled(rows, companies, requester, name, true)
    case None => Forbidden
    case Some(k) =>
      var c := companies[IsinIndex(companies, rows[k].isin).value];
      if !Truthy(c.pdfFilename) || !c.hasPdfReport then NotFound
      else Serve(c.pdfFilename.value, disk)
  }

  /** The first company named `name` ignoring case (`filter(...__iexact).first()`). */
  function FirstNamed(companies: seq<Company>, name: string): (r: Option<nat>)
    ensures r.Some? ==> r.value < |companies| && NamedAs(companies[r.value], name, false)
    ensures r.None? ==> forall j :: 0 <= j < |companies| ==> !NamedAs(companies[j], name, false)
  {
    if companies == [] then None
    else if NamedAs(companies[0], name, false) then Some(0)
    else match FirstNamed(companies[1..], name)
      case Some(k) => Some(k + 1)
      case None => None
  }

  /**
   * `download_company_report` / `view_company_report`, live definitions: no
   * ledger check at all. A 404 exactly when no company has the name (ignoring
   * case), the first one has no file name, or the file is absent; the report
   * flag is not consulted.
   */
  function LiveGateway(companies: seq<Company>, name: string, disk: Disk): (r: Status)
    ensures r == NotFound <==> FirstNamed(companies, name).None?
                               || !Truthy(companies[FirstNamed(companies, name).value].pdfFilename)
                               || companies[FirstNamed(companies, name).value].pdfFilename.value !in disk
    ensures r == Ok <==> FirstNamed(companies, name).Some?
                         && var c := companies[FirstNamed(companies, name).value];
                            Truthy(c.pdfFilename) && c.pdfFilename.value in disk && disk[c.pdfFilename.value] == Readable
    ensures r == ServerError <==> FirstNamed(companies, name).Some?
                                  && var c := companies[FirstNamed(companies, name).value];
                                     Truthy(c.pdfFilename) && c.pdfFilename.value in disk && disk[c.pdfFilename.value] == Unreadable
  {
    match FirstNamed(companies, name)
    case None => NotFound
    case Some(k) =>
      if !Truthy(companies[k].pdfFilename) then NotFound
      else Serve(companies[k].pdfFilename.value, disk)
  }

  /**
   * The live views serve a report to a caller the earlier views refuse: with
   * an empty ledger the earlier gateway answers 403 and the live one 200.
   */
  lemma LiveGatewayServesUnentitled()
    ensures FirstGateway([], [Company("INE000000001", map[CompanyName := "Acme"], Some("acme.pdf"), true)], 7, "Acme", map["acme.pdf" := Readable]) == Forbidden
    ensures LiveGateway([Company("INE000000001", map[CompanyName := "Acme"], Some("acme.pdf"), true)], "Acme", map["acme.pdf" := Readable]) == Ok
  {
    var c := Company("INE000000001", map[CompanyName := "Acme"], Some("acme.pdf"), true);
    assert NamedAs(c, "Acme", false);
    assert FirstNamed([c], "Acme") == Some(0);
  }

  /**
   * `admin_user_reports_by_id`: the active rows of one user, newest first
   * (the model's default ordering).
   */
  function AdminUserReportsById(rows: seq<Assignment>, userId: nat): (r: seq<Assignment>)
    ensures forall a :: a in r <==> a in rows && a.user == userId && a.isActive
    ensures Chronological(rows) ==> forall i, j :: 0 <= i < j < |r| ==> r[i].assignedAt > r[j].assignedAt
  {
    var r := MyReports(rows, userId);
    forall a ensures a in r <==> a in rows && a.user == userId && a.isActive {
      NewestFirstExact(rows, ActiveOfUser(userId), a);
    }
    if Chronological(rows) then
      NewestFirstOrder(rows, ActiveOfUser(userId));
      r
    else r
  }

  /** `list_available_reports`: the companies with a non-empty file name, in table order. */
  function ListAvailableReports(companies: seq<Company>): (r: seq<Company>)
    ensures forall c :: c in r <==> c in companies && Truthy(c.pdfFilename)
    ensures |r| <= |companies|
  {
    if companies == [] then []
    else (if Truthy(companies[0].pdfFilename) then [companies[0]] else []) + ListAvailableReports(companies[1..])
  }

  /** `admin_user_company_assignments`, first definition: the active rows, newest first. */
  function AdminAssignmentsFirst(rows: seq<Assignment>): seq<Assignment> {
    NewestFirst(rows, ActiveRow())
  }

  /** The first admin listing holds exactly the active rows, newest first. */
  lemma AdminAssignmentsFirstExact(rows: seq<Assignment>)
    requires Chronological(rows)
    ensures forall a :: a in AdminAssignmentsFirst(rows) <==> a in rows && a.isActive
    ensures forall i, j :: 0 <= i < j < |AdminAssignmentsFirst(rows)|
                           ==> AdminAssignmentsFirst(rows)[i].assignedAt > AdminAssignmentsFirst(rows)[j].assignedAt
  {
    forall a ensures a in AdminAssignmentsFirst(rows) <==> a in rows && a.isActive {
      NewestFirstExact(rows, ActiveRow(), a);
    }
    NewestFirstOrder(rows, ActiveRow());
  }

  /**
   * `admin_user_company_assignments`, live definition AS WRITTEN: every row is
   * read for a `date_added` attribute that `UserCompany` does not have, so the
   * view fails as soon as there is one row and answers 200 only for an empty
   * ledger.
   */
  function AdminAssignmentsLiveAsWritten(rows: seq<Assignment>): (r: Status)
    ensures r == Ok <==> rows == []
  {
    if rows == [] then Ok else ServerError
  }

  /** One assignment is enough for the live listing as written to fail. */
  lemma AdminAssignmentsLiveFailsOnAnyRow()
    ensures AdminAssignmentsLiveAsWritten([Assignment(1, 2, "INE000000001", None, 0, true, None)]) == ServerError
  {
  }

  /**
   * The live listing as intended, reading `assigned_at`: every row, active or
   * not, newest first.
   */
  function AdminAssignmentsLive(rows: seq<Assignment>): (r: (Status, seq<Assignment>))
    ensures r.0 == Ok
    ensures forall a :: a in r.1 <==> a in rows
    ensures Chronological(rows) ==> forall i, j :: 0 <= i < j < |r.1| ==> r.1[i].assignedAt > r.1[j].assignedAt
  {
    var listing := Reverse(rows);
    assert forall a :: a in listing ==> a in rows by {
      forall a | a in listing ensures a in rows {
        var i :| 0 <= i < |listing| && listing[i] == a;
        assert rows[|rows| - 1 - i] == a;
      }
    }
    assert forall a :: a in rows ==> a in listing by {
      forall a | a in rows ensures a in listing {
        var i :| 0 <= i < |rows| && rows[i] == a;
        assert listing[|rows| - 1 - i] == a;
      }
    }
    (Ok, listing)
  }

  /**
   * `assign_report_to_user`: missing ids are a 400; an unknown user or report
   * a 404; an existing ownership a 400; otherwise one new `UserReport` with the
   * requester as grantor (201).
   */
  method AssignReportToUser(db: Database, requester: nat, userId: Option<int>, reportId: Option<int>, notes: Option<string>)
    returns (status: Status)
    requires db.Valid()
    requires requester in UserIds(db.users)
    modifies db
    ensures db.Valid()
    ensures db.users == old(db.users) && db.companies == old(db.companies) && db.reports == old(db.reports)
    ensures db.assignments == old(db.assignments)
    ensures !GivenId(userId) || !GivenId(reportId) ==> status == BadRequest && unchanged(db)
    ensures GivenId(userId) && GivenId(reportId)
            && (UserIndex(db.users, userId.value).None? || ReportIndex(db.reports, reportId.value).None?) ==>
                status == NotFound && unchanged(db)
    ensures GivenId(userId) && GivenId(reportId) && UserIndex(db.users, userId.value).Some? && ReportIndex(db.reports, reportId.value).Some? ==>
              var uid := userId.value as nat;
              var rid := reportId.value as nat;
              if OwnershipPair(old(db.owned), uid, rid).Some? then status == BadRequest && unchanged(db)
              else status == Created && db.owned == old(db.owned) + [Ownership(old(db.nextId), uid, rid, Some(requester), notes)]
                   && db.nextId == old(db.nextId) + 1 && db.clock == old(db.clock)
  {
    if !GivenId(userId) || !GivenId(reportId) {
      return BadRequest;
    }
    var u := UserIndex(db.users, userId.value);
    var r := ReportIndex(db.reports, reportId.value);
    if u.None? || r.None? {
      return NotFound;
    }
    var uid := db.users[u.value].id;
    var rid := db.reports[r.value].id;
    assert db.reports[r.value] in db.reports;
    if OwnershipPair(db.owned, uid, rid).Some? {
      return BadRequest;
    }
    var _ := db.AddOwnership(uid, rid, Some(requester), notes);
    status := Created;
  }

  /** `remove_report_from_user`: an unknown id is a 404; otherwise that row goes. */
  method RemoveReportFromUser(db: Database, userReportId: int) returns (status: Status)
    requires db.Valid()
    modifies db
    ensures db.Valid()
    ensures OwnershipIndex(old(db.owned), userReportId).None? ==> status == NotFound && unchanged(db)
    ensures OwnershipIndex(old(db.owned), userReportId).Some? ==>
              var k := OwnershipIndex(old(db.owned), userReportId).value;
              status == Ok && db.owned == old(db.owned)[..k] + old(db.owned)[k + 1..]
              && db.assignments == old(db.assignments) && db.users == old(db.users)
              && db.companies == old(db.companies) && db.reports == old(db.reports)
  {
    var k := OwnershipIndex(db.owned, userReportId);
    if k.None? {
      return NotFound;
    }
    db.DeleteOwnershipAt(k.value);
    status := Ok;
  }

  /** What `get_company_name_mappings` keeps for a report file. */
  datatype CompanyEntry = CompanyEntry(companyName: string, pdfFilename: string, sector: string, esgRating: string)

  /** The files the mapping accepts: names ending in ".pdf" in any case. */
  function PdfFiles(disk: Disk): set<string> {
    set f | f in disk && EndsWith(Lower(f), ".pdf")
  }

  /** `str(x) if pd.notna(x) else ''` for `row.get(key, '')`. */
  function CellOrBlank(columns: seq<string>, row: seq<Cell>, key: string): string {
    match RowGet(columns, row, key)
    case Some(c) => if c.NaN? then "" else CellStr(c)
    case None => ""
  }

  /** The two dicts after the given rows: file to entry, name to file. */
  function NameMappings(columns: seq<string>, rows: seq<seq<Cell>>, pdfs: set<string>): (map<string, CompanyEntry>, map<string, string>)
    decreases |rows|
  {
    if rows == [] then (map[], map[])
    else
      var (byFile, byName) := NameMappings(columns, rows[..|rows| - 1], pdfs);
      var row := rows[|rows| - 1];
      var name := RowGet(columns, row, "Company Name");
      var file := RowGet(columns, row, "file name");
      if name.Some? && !name.value.NaN? && file.Some? && !file.value.NaN? && Strip(CellStr(file.value)) in pdfs then
        var n := Strip(CellStr(name.value));
        var f := Strip(CellStr(file.value));
        (byFile[f := CompanyEntry(n, f, CellOrBlank(columns, row, "Sector"), CellOrBlank(columns, row, "ESG Rating"))],
         byName[n := f])
      else (byFile, byName)
  }

  /**
   * Every name maps to a listed report file that also has an entry, and every
   * entry is keyed by its own listed file name.
   */
  lemma {:induction false} NameMappingsSound(columns: seq<string>, rows: seq<seq<Cell>>, pdfs: set<string>)
    ensures forall n :: n in NameMappings(columns, rows, pdfs).1 ==>
              NameMappings(columns, rows, pdfs).1[n] in pdfs && NameMappings(columns, rows, pdfs).1[n] in NameMappings(columns, rows, pdfs).0
    ensures forall f :: f in NameMappings(columns, rows, pdfs).0 ==>
              f in pdfs && NameMappings(columns, rows, pdfs).0[f].pdfFilename == f
  {
    if rows != [] {
      NameMappingsSound(columns, rows[..|rows| - 1], pdfs);
    }
  }

  /**
   * `get_company_name_mappings`: a missing or unreadable workbook gives two
   * empty dicts; otherwise each row with a name and a file name that is in the
   * reports directory records both.
   */
  method GetCompanyNameMappings(book: LoadExcel.Workbook, dir: Option<Disk>) returns (byFile: map<string, CompanyEntry>, byName: map<string, string>)
    ensures !book.Readable? ==> byFile == map[] && byName == map[]
    ensures book.Readable? ==>
              (byFile, byName) == NameMappings(LoadExcel.StripColumns(book.sheet.columns), book.sheet.rows,
                                               if dir.Some? then PdfFiles(dir.value) else {})
  {
    if !book.Readable? {
      return map[], map[];
    }
    var columns := LoadExcel.StripColumns(book.sheet.columns);
    var pdfs := if dir.Some? then PdfFiles(dir.value) else {};
    var rows := book.sheet.rows;
    byFile, byName := map[], map[];
    for i := 0 to |rows|
      invariant (byFile, byName) == NameMappings(columns, rows[..i], pdfs)
    {
      assert rows[..i + 1][..i] == rows[..i];
      var row := rows[i];
      var name := RowGet(columns, row, "Company Name");
      var file := RowGet(columns, row, "file name");
      if name.Some? && !name.value.NaN? && file.Some? && !file.value.NaN? {
        var n := Strip(CellStr(name.value));
        var f := Strip(CellStr(file.value));
        if f in pdfs {
          byFile := byFile[f := CompanyEntry(n, f, CellOrBlank(columns, row, "Sector"), CellOrBlank(columns, row, "ESG Rating"))];
          byName := byName[n := f];
        }
      }
    }
    assert rows[..|rows|] == rows;
  }

  /** The file `find_company_pdf` returns from a name-to-file dict. */
  function PdfFor(name: string, byName: map<string, string>, disk: Disk): (r: Option<string>)
    ensures r.Some? <==> name in byName && byName[name] != "" && byName[name] in disk
    ensures r.Some? ==> r.value == byName[name]
  {
    if name in byName && byName[name] != "" && byName[name] in disk then Some(byName[name]) else None
  }

  /**
   * `find_company_pdf`: no reports directory means no file; otherwise the file
   * the mappings give for the exact name, if it exists.
   */
  method FindCompanyPdf(name: string, book: LoadExcel.Workbook, dir: Option<Disk>) returns (file: Option<string>)
    ensures dir.None? ==> file.None?
    ensures file.Some? ==> dir.Some? && file.value in dir.value && EndsWith(Lower(file.value), ".pdf")
    ensures dir.Some? && book.Readable? ==>
              file == PdfFor(name, NameMappings(LoadExcel.StripColumns(book.sheet.columns), book.sheet.rows, PdfFiles(dir.value)).1, dir.value)
    ensures dir.Some? && !book.Readable? ==> file.None?
  {
    if dir.None? {
      return None;
    }
    var _, byName := GetCompanyNameMappings(book, dir);
    if book.Readable? {
      NameMappingsSound(LoadExcel.StripColumns(book.sheet.columns), book.sheet.rows, PdfFiles(dir.value));
    }
    file := PdfFor(name, byName, dir.value);
  }

  /**
   * `sync_excel_data` view, first definition: runs the `sync_excel_data`
   * command; its `CommandError` (missing or unreadable workbook) becomes a 500.
   */
  method SyncExcelDataFirst(db: Database, source: ExcelSync.SyncFile, failing: set<nat>) returns (status: Status)
    requires db.Valid()
    modifies db`companies
    ensures db.Valid()
    ensures status == ServerError <==> !source.Workbook?
    ensures status == Ok || status == ServerError
    ensures !source.Workbook? ==> db.companies == old(db.companies)
    ensures source.Workbook? ==>
              db.companies == ExcelSync.SyncRows(old(db.companies), ExcelSync.NormalizeColumns(source.sheet.columns),
                                                 source.sheet.rows, false, failing).companies
    ensures old(db.companies) <= db.companies
  {
    var outcome := ExcelSync.Handle(db, source, false, failing);
    if source.Workbook? {
      ExcelSync.NoForceNoUpdates(old(db.companies), ExcelSync.NormalizeColumns(source.sheet.columns), source.sheet.rows, failing);
    }
    status := if outcome.CommandError? then ServerError else Ok;
  }

  /**
   * `sync_excel_data` view, live definition: runs `load_excel_data`, which
   * returns normally when the workbook is missing, so that case is a 200 as
   * well; only an error the command re-raises is a 500.
   */
  method SyncExcelData(db: Database, book: LoadExcel.Workbook, listing: Option<seq<string>>) returns (status: Status)
    requires db.Valid()
    modifies db`companies, db`assignments
    ensures db.Valid()
    ensures status == ServerError <==> book.Unreadable?
    ensures book.Missing? ==> status == Ok && db.companies == old(db.companies) && db.assignments == old(db.assignments)
    ensures status == Ok || status == ServerError
    ensures db.assignments == old(db.assignments)
    ensures book.Unreadable? ==> db.companies == old(db.companies)
    ensures book.Readable? ==>
              db.companies == LoadExcel.LoadRows(old(db.companies), LoadExcel.StripColumns(book.sheet.columns), book.sheet.rows,
                                                 if listing.Some? then PdfMatching.MappingOf(listing.value) else [])
  {
    var outcome := LoadExcel.Handle(db, book, listing, false);
    status := if outcome.Raised? then ServerError else Ok;
  }
}
