/**
 * The ledger side of backend/api/admin.py: the bulk "assign to users" action
 * of the company admin, activate/deactivate of selected rows, `save_model`,
 * the grade badge and the two active-assignment counters.
 */
module Admin {
  import opened Wrappers
  import opened Text
  import opened Users
  import opened Catalog
  import opened Store

  /** The colour of the grade badge. */
  datatype Badge = Green | Orange | Red

  /** What `company_grade` shows: a coloured grade, or "-". */
  datatype GradeCell = Coloured(badge: Badge, grade: string) | Dash

  /**
   * `company_grade`: an empty or NULL grade shows "-"; otherwise the grade in
   * green when it starts with "A", orange when it starts with "B", red
   * otherwise.
   */
  function CompanyGrade(grade: Option<string>): (r: GradeCell)
    ensures r == Dash <==> !Truthy(grade)
    ensures r.Coloured? ==> r.grade == grade.value
    ensures r.Coloured? ==> (r.badge == Green <==> grade.value[0] == 'A')
    ensures r.Coloured? ==> (r.badge == Orange <==> grade.value[0] == 'B')
  {
    if !Truthy(grade) then Dash
    else if StartsWith(grade.value, "A") then Coloured(Green, grade.value)
    else if StartsWith(grade.value, "B") then Coloured(Orange, grade.value)
    else Coloured(Red, grade.value)
  }

  /** `assigned_companies_count`: a user's active rows. */
  function AssignedCompaniesCount(rows: seq<Assignment>, user: nat): (r: nat)
    ensures r == |MyReports(rows, user)|
  {
    FilterCount(rows, ActiveOfUser(user), (a: Assignment) => !(a.user == user && a.isActive));
    Count(rows, ActiveOfUser(user))
  }

  /** `assigned_users_count`: a company's active rows. */
  function AssignedUsersCount(rows: seq<Assignment>, isin: string): (r: nat)
    ensures r == |Filter(rows, ActiveOfCompany(isin))|
  {
    FilterCount(rows, ActiveOfCompany(isin), (a: Assignment) => !(a.isin == isin && a.isActive));
    Count(rows, ActiveOfCompany(isin))
  }

  /**
   * Both counters count exactly the active rows: the user counter's rows are
   * that user's active rows, the company counter's that company's.
   */
  lemma CountersCountActiveRows(rows: seq<Assignment>, user: nat, isin: string)
    ensures forall a :: a in MyReports(rows, user) <==> a in rows && a.user == user && a.isActive
    ensures forall a :: a in Filter(rows, ActiveOfCompany(isin)) <==> a in rows && a.isin == isin && a.isActive
    ensures AssignedCompaniesCount(rows, user) <= |rows| && AssignedUsersCount(rows, isin) <= |rows|
  {
    forall a ensures a in MyReports(rows, user) <==> a in rows && a.user == user && a.isActive {
      NewestFirstExact(rows, ActiveOfUser(user), a);
    }
  }

  /** `CustomUser.objects.filter(username__in=names)`: the ids, in table order. */
  function UsersNamed(users: seq<UserRow>, names: seq<string>): (r: seq<nat>)
    ensures forall id :: id in r <==> exists u :: u in users && u.id == id && u.username in names
    ensures forall id :: id in r ==> id in UserIds(users)
  {
    if users == [] then []
    else (if users[0].username in names then [users[0].id] else []) + UsersNamed(users[1..], names)
  }

  /** The notes of every row the bulk action creates. */
  const BulkNote: string := "Bulk assigned via admin panel"

  /** A row as the bulk action creates it for a selected company and user. */
  predicate BulkRow(a: Assignment, requester: nat, isins: seq<string>, uids: seq<nat>) {
    a.isActive && a.assignedBy == Some(requester) && a.notes == Some(BulkNote)
    && a.isin in isins && a.user in uids
  }

  /** A row of a ledger is still there, at the same place, after rows are appended. */
  lemma PairIndexGrows(rows: seq<Assignment>, longer: seq<Assignment>, user: nat, isin: string)
    requires rows <= longer
    ensures PairIndex(rows, user, isin).Some? ==> PairIndex(longer, user, isin).Some?
  {
    if PairIndex(rows, user, isin).Some? {
      var k := PairIndex(rows, user, isin).value;
      assert longer[k] == rows[k];
      assert longer[k] in longer;
    }
  }

  /**
   * `rows` is `start` followed only by rows the bulk action creates, each for
   * a pair that had no row in `start`.
   */
  predicate BulkExtends(start: seq<Assignment>, rows: seq<Assignment>, requester: nat, isins: seq<string>, uids: seq<nat>) {
    start <= rows
    && forall k :: |start| <= k < |rows| ==>
         BulkRow(rows[k], requester, isins, uids) && PairIndex(start, rows[k].user, rows[k].isin).None?
  }

  /** Every listed user has a row for company `isin`. */
  predicate Covered(rows: seq<Assignment>, uids: seq<nat>, isin: string) {
    forall uid :: uid in uids ==> PairIndex(rows, uid, isin).Some?
  }

  /** Appending rows keeps a company covered. */
  lemma CoveredGrows(rows: seq<Assignment>, longer: seq<Assignment>, uids: seq<nat>, isin: string)
    requires rows <= longer
    requires Covered(rows, uids, isin)
    ensures Covered(longer, uids, isin)
  {
    forall uid | uid in uids ensures PairIndex(longer, uid, isin).Some? {
      PairIndexGrows(rows, longer, uid, isin);
    }
  }

  /**
   * Appending rows keeps the first `n` companies covered, so once company
   * `n` is covered too the first `n + 1` are.
   */
  lemma EarlierStayCovered(rows: seq<Assignment>, longer: seq<Assignment>, uids: seq<nat>, isins: seq<string>, n: nat)
    requires rows <= longer
    requires n < |isins|
    requires forall i :: 0 <= i < n ==> Covered(rows, uids, isins[i])
    requires Covered(longer, uids, isins[n])
    ensures forall i :: 0 <= i < n + 1 ==> Covered(longer, uids, isins[i])
  {
    forall i | 0 <= i < n ensures Covered(longer, uids, isins[i]) {
      CoveredGrows(rows, longer, uids, isins[i]);
    }
  }

  /** Appending rows keeps the first `n` users covered for company `isin`; with user `n` the first `n + 1` are. */
  lemma EarlierUsersStayCovered(rows: seq<Assignment>, longer: seq<Assignment>, uids: seq<nat>, isin: string, n: nat)
    requires rows <= longer
    requires n < |uids|
    requires forall j :: 0 <= j < n ==> PairIndex(rows, uids[j], isin).Some?
    requires PairIndex(longer, uids[n], isin).Some?
    ensures forall j :: 0 <= j < n + 1 ==> PairIndex(longer, uids[j], isin).Some?
  {
    forall j | 0 <= j < n ensures PairIndex(longer, uids[j], isin).Some? {
      PairIndexGrows(rows, longer, uids[j], isin);
    }
  }

  /** One `get_or_create` of the bulk action, for one company and one user. */
  method AssignPair(db: Database, requester: nat, uid: nat, isin: string,
                    ghost start: seq<Assignment>, ghost isins: seq<string>, ghost uids: seq<nat>)
    returns (made: bool)
    requires db.Valid()
    requires requester in UserIds(db.users) && uid in UserIds(db.users) && isin in Isins(db.companies)
    requires isin in isins && uid in uids
    requires BulkExtends(start, db.assignments, requester, isins, uids)
    modifies db`assignments, db`nextId, db`clock
    ensures db.Valid()
    ensures db.users == old(db.users) && db.companies == old(db.companies)
    ensures db.reports == old(db.reports) && db.owned == old(db.owned)
    ensures BulkExtends(start, db.assignments, requester, isins, uids)
    ensures |db.assignments| == |old(db.assignments)| + (if made then 1 else 0)
    ensures old(db.assignments) <= db.assignments
    ensures made <==> PairIndex(old(db.assignments), uid, isin).None?
    ensures PairIndex(db.assignments, uid, isin).Some?
  {
    var before := db.assignments;
    if PairIndex(before, uid, isin).Some? {
      return false;
    }
    PairIndexGrows(start, before, uid, isin);
    var _ := db.AddAssignment(uid, isin, Some(requester), Some(BulkNote));
    assert before <= db.assignments;
    assert db.assignments[|before|] in db.assignments;
    made := true;
  }

  /** The inner loop of the bulk action: one company, every selected user. */
  method AssignCompanyToAll(db: Database, requester: nat, isin: string, uids: seq<nat>,
                            ghost start: seq<Assignment>, ghost isins: seq<string>)
    returns (made: nat)
    requires db.Valid()
    requires requester in UserIds(db.users) && isin in Isins(db.companies) && isin in isins
    requires forall uid :: uid in uids ==> uid in UserIds(db.users)
    requires BulkExtends(start, db.assignments, requester, isins, uids)
    modifies db`assignments, db`nextId, db`clock
    ensures db.Valid()
    ensures db.users == old(db.users) && db.companies == old(db.companies)
    ensures db.reports == old(db.reports) && db.owned == old(db.owned)
    ensures BulkExtends(start, db.assignments, requester, isins, uids)
    ensures old(db.assignments) <= db.assignments
    ensures made == |db.assignments| - |old(db.assignments)|
    ensures Covered(db.assignments, uids, isin)
  {
    made := 0;
    for j := 0 to |uids|
      invariant db.Valid()
      invariant BulkExtends(start, db.assignments, requester, isins, uids)
      invariant old(db.assignments) <= db.assignments
      invariant made == |db.assignments| - |old(db.assignments)|
      invariant forall j' :: 0 <= j' < j ==> PairIndex(db.assignments, uids[j'], isin).Some?
    {
      ghost var before := db.assignments;
      var one := AssignPair(db, requester, uids[j], isin, start, isins, uids);
      if one {
        made := made + 1;
      }
      EarlierUsersStayCovered(before, db.assignments, uids, isin, j);
    }
  }

  /**
   * `assign_to_users`: without the "apply" submission or without selected
   * usernames the form is shown and nothing changes. Otherwise, for every
   * selected company and every user whose username was selected, a pair that
   * has no row gets one new active row granted by the requester with the bulk
   * note; pairs that have a row are left untouched. The result is the number
   * of rows created.
   */
  method AssignToUsers(db: Database, requester: nat, isins: seq<string>, apply: bool, names: seq<string>)
    returns (created: Option<nat>)
    requires db.Valid()
    requires requester in UserIds(db.users)
    requires forall i :: 0 <= i < |isins| ==> isins[i] in Isins(db.companies)
    modifies db`assignments, db`nextId, db`clock
    ensures db.Valid()
    ensures db.users == old(db.users) && db.companies == old(db.companies)
    ensures db.reports == old(db.reports) && db.owned == old(db.owned)
    ensures !apply || names == [] ==> created.None? && unchanged(db)
    ensures apply && names != [] ==> created == Some(|db.assignments| - |old(db.assignments)|)
    ensures BulkExtends(old(db.assignments), db.assignments, requester, isins, UsersNamed(db.users, names))
    ensures apply && names != [] ==> forall isin :: isin in isins ==> Covered(db.assignments, UsersNamed(db.users, names), isin)
  {
    if !apply || names == [] {
      return None;
    }
    var uids := UsersNamed(db.users, names);
    var count := AssignAll(db, requester, isins, uids);
    forall isin | isin in isins ensures Covered(db.assignments, uids, isin) {
      var i :| 0 <= i < |isins| && isins[i] == isin;
    }
    created := Some(count);
  }

  /** The outer loop of the bulk action: every selected company, every selected user. */
  method AssignAll(db: Database, requester: nat, isins: seq<string>, uids: seq<nat>) returns (count: nat)
    requires db.Valid()
    requires requester in UserIds(db.users)
    requires forall i :: 0 <= i < |isins| ==> isins[i] in Isins(db.companies)
    requires forall uid :: uid in uids ==> uid in UserIds(db.users)
    modifies db`assignments, db`nextId, db`clock
    ensures db.Valid()
    ensures db.users == old(db.users) && db.companies == old(db.companies)
    ensures db.reports == old(db.reports) && db.owned == old(db.owned)
    ensures count == |db.assignments| - |old(db.assignments)|
    ensures BulkExtends(old(db.assignments), db.assignments, requester, isins, uids)
    ensures forall i :: 0 <= i < |isins| ==> Covered(db.assignments, uids, isins[i])
  {
    ghost var start := db.assignments;
    count := 0;
    for i := 0 to |isins|
      invariant db.Valid()
      invariant BulkExtends(start, db.assignments, requester, isins, uids)
      invariant count + |start| == |db.assignments|
      invariant forall i' :: 0 <= i' < i ==> Covered(db.assignments, uids, isins[i'])
    {
      ghost var before := db.assignments;
      var made := AssignCompanyToAll(db, requester, isins[i], uids, start, isins);
      count := count + made;
      EarlierStayCovered(before, db.assignments, uids, isins, i);
    }
  }

  /** Rows whose primary key is among the selected ones. */
  function InIds(selected: set<nat>): Assignment -> bool {
    (a: Assignment) => a.id in selected
  }

  /** Counting a ledger with one more row at the end. */
  lemma {:induction false} CountSnoc(rows: seq<Assignment>, a: Assignment, keep: Assignment -> bool)
    ensures Count(rows + [a], keep) == Count(rows, keep) + (if keep(a) then 1 else 0)
  {
    if rows != [] {
      assert (rows + [a])[1..] == rows[1..] + [a];
      CountSnoc(rows[1..], a, keep);
    }
  }

  /** `cur` is `rows` with the flag set on the selected rows among the first `i`. */
  predicate ActivatedUpTo(cur: seq<Assignment>, rows: seq<Assignment>, selected: set<nat>, active: bool, i: nat) {
    |cur| == |rows|
    && forall k :: 0 <= k < |rows| ==>
         cur[k] == if k < i && rows[k].id in selected then rows[k].(isActive := active) else rows[k]
  }

  /** One more row of `activate_assignments`: row `i` is still as read, and updating it if selected extends the prefix. */
  lemma ActivateStep(cur: seq<Assignment>, rows: seq<Assignment>, selected: set<nat>, active: bool, i: nat)
    requires i < |rows| && ActivatedUpTo(cur, rows, selected, active, i)
    ensures cur[i] == rows[i]
    ensures rows[i].id in selected ==>
              ActivatedUpTo(cur[i := cur[i].(isActive := active, assignedBy := rows[i].assignedBy, notes := rows[i].notes)],
                            rows, selected, active, i + 1)
    ensures rows[i].id !in selected ==> ActivatedUpTo(cur, rows, selected, active, i + 1)
    ensures Count(rows[..i + 1], InIds(selected)) == Count(rows[..i], InIds(selected)) + (if rows[i].id in selected then 1 else 0)
  {
    CountSnoc(rows[..i], rows[i], InIds(selected));
    assert rows[..i + 1] == rows[..i] + [rows[i]];
  }

  /**
   * `activate_assignments` (`active` true) and `deactivate_assignments`
   * (`active` false): `queryset.update(is_active=...)` sets the flag on every
   * selected row, leaves every other column and row as it was, and reports the
   * number of selected rows.
   */
  method SetActive(db: Database, selected: set<nat>, active: bool) returns (updated: nat)
    requires db.Valid()
    modifies db`assignments
    ensures db.Valid()
    ensures |db.assignments| == |old(db.assignments)|
    ensures forall k :: 0 <= k < |db.assignments| ==>
              db.assignments[k] == if old(db.assignments)[k].id in selected then old(db.assignments)[k].(isActive := active)
                                   else old(db.assignments)[k]
    ensures updated == Count(old(db.assignments), InIds(selected))
  {
    var rows := db.assignments;
    updated := 0;
    for i := 0 to |rows|
      invariant db.Valid()
      invariant ActivatedUpTo(db.assignments, rows, selected, active, i)
      invariant updated == Count(rows[..i], InIds(selected))
    {
      ActivateStep(db.assignments, rows, selected, active, i);
      if rows[i].id in selected {
        assert db.assignments[i] in db.assignments;
        db.UpdateAssignment(i, active, rows[i].assignedBy, rows[i].notes);
        updated := updated + 1;
      }
    }
    assert rows[..|rows|] == rows;
  }

  /** The fields of the admin change form for a ledger row. */
  datatype AssignmentForm = AssignmentForm(user: nat, isin: string, isActive: bool, assignedBy: Option<nat>, notes: Option<string>)

  /**
   * `save_model`: on an add (`change` false) the requester is recorded as
   * grantor whatever the form said and one row is created; on a change the row
   * `k` takes the form's values, including the form's grantor. The form's own
   * validation has already checked that the referenced rows exist and that the
   * (user, company) pair is free.
   */
  method SaveModel(db: Database, requester: nat, form: AssignmentForm, change: bool, k: nat)
    requires db.Valid()
    requires requester in UserIds(db.users)
    requires form.user in UserIds(db.users) && form.isin in Isins(db.companies)
    requires form.assignedBy.Some? ==> form.assignedBy.value in UserIds(db.users)
    requires change ==> k < |db.assignments|
    requires change ==> PairIndex(db.assignments, form.user, form.isin).None? || PairIndex(db.assignments, form.user, form.isin) == Some(k)
    requires !change ==> PairIndex(db.assignments, form.user, form.isin).None?
    modifies db`assignments, db`nextId, db`clock
    ensures db.Valid()
    ensures db.users == old(db.users) && db.companies == old(db.companies)
    ensures db.reports == old(db.reports) && db.owned == old(db.owned)
    ensures !change ==> db.assignments == old(db.assignments)
                          + [Assignment(old(db.nextId), form.user, form.isin, Some(requester), old(db.clock), form.isActive, form.notes)]
                        && db.nextId == old(db.nextId) + 1 && db.clock == old(db.clock) + 1
    ensures change ==> db.nextId == old(db.nextId) && db.clock == old(db.clock)
    ensures change ==> db.assignments == old(db.assignments)[k := old(db.assignments)[k].(
                          user := form.user, isin := form.isin, isActive := form.isActive, assignedBy := form.assignedBy, notes := form.notes)]
  {
    if !change {
      var _ := db.AddAssignment(form.user, form.isin, Some(requester), form.notes);
      if !form.isActive {
        db.UpdateAssignment(|db.assignments| - 1, false, Some(requester), form.notes);
      }
    } else {
      db.EditAssignment(k, form.user, form.isin, form.isActive, form.assignedBy, form.notes);
    }
  }
}
