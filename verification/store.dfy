/**
 * The database tables of backend/api/models.py that the report ledger lives
 * in: users, companies, `UserCompany` (the ledger), `Report` and
 * `UserReport`. Rows are kept in insertion order; ids and `assigned_at`
 * stamps come from counters that only grow.
 */
module Store {
  import opened Wrappers
  import opened Users
  import opened Catalog

  /** A `UserCompany` row: `user` may read the report of company `isin`. */
  datatype Assignment = Assignment(
    id: nat,
    user: nat,
    isin: string,
    assignedBy: Option<nat>,
    assignedAt: nat,
    isActive: bool,
    notes: Option<string>)

  /** A `Report` row (only the columns its constraints and the ledger views use). */
  datatype Report = Report(id: nat, companyName: string, year: int, isActive: bool)

  /** A `UserReport` row: `user` owns report `report`. */
  datatype Ownership = Ownership(id: nat, user: nat, report: nat, assignedBy: Option<nat>, notes: Option<string>)

  /** Rows are in creation order: ids and `assigned_at` stamps strictly increase. */
  predicate Chronological(rows: seq<Assignment>) {
    forall i, j :: 0 <= i < j < |rows| ==> rows[i].id < rows[j].id && rows[i].assignedAt < rows[j].assignedAt
  }

  /** `unique_together = ('user', 'company')`. */
  predicate UniquePairs(rows: seq<Assignment>) {
    forall i, j :: 0 <= i < |rows| && 0 <= j < |rows| && rows[i].user == rows[j].user && rows[i].isin == rows[j].isin ==> i == j
  }

  predicate UniqueUserIds(users: seq<UserRow>) {
    forall i, j :: 0 <= i < |users| && 0 <= j < |users| && users[i].id == users[j].id ==> i == j
  }

  /** `username = CharField(unique=True)`. */
  predicate UniqueUsernames(users: seq<UserRow>) {
    forall i, j :: 0 <= i < |users| && 0 <= j < |users| && users[i].username == users[j].username ==> i == j
  }

  /** `email = EmailField(unique=True)`. */
  predicate UniqueEmails(users: seq<UserRow>) {
    forall i, j :: 0 <= i < |users| && 0 <= j < |users| && users[i].email == users[j].email ==> i == j
  }

  function UserIds(users: seq<UserRow>): set<nat> {
    set u | u in users :: u.id
  }

  /** Every ledger row points at an existing user and company; `assigned_by` is null or a user. */
  predicate LedgerRefs(rows: seq<Assignment>, users: seq<UserRow>, companies: seq<Company>) {
    forall a :: a in rows ==> a.user in UserIds(users) && a.isin in Isins(companies)
                              && (a.assignedBy.Some? ==> a.assignedBy.value in UserIds(users))
  }

  /** Report ids are unique and so is (`company_name`, `year`). */
  predicate UniqueReports(reports: seq<Report>) {
    forall i, j :: 0 <= i < |reports| && 0 <= j < |reports|
                   && (reports[i].id == reports[j].id
                       || (reports[i].companyName == reports[j].companyName && reports[i].year == reports[j].year))
                   ==> i == j
  }

  function ReportIds(reports: seq<Report>): set<nat> {
    set r | r in reports :: r.id
  }

  /** `UserReport` ids increase in creation order and (`user`, `report`) is unique. */
  predicate UniqueOwnership(owned: seq<Ownership>) {
    (forall i, j :: 0 <= i < j < |owned| ==> owned[i].id < owned[j].id)
    && (forall i, j :: 0 <= i < |owned| && 0 <= j < |owned|
                          && owned[i].user == owned[j].user && owned[i].report == owned[j].report
                       ==> i == j)
  }

  predicate OwnershipRefs(owned: seq<Ownership>, users: seq<UserRow>, reports: seq<Report>) {
    forall o :: o in owned ==> o.user in UserIds(users) && o.report in ReportIds(reports)
                               && (o.assignedBy.Some? ==> o.assignedBy.value in UserIds(users))
  }

  /** `User.objects.get(id=id)`. */
  function UserIndex(users: seq<UserRow>, id: int): (r: Option<nat>)
    ensures r.Some? ==> r.value < |users| && users[r.value].id == id
    ensures r.None? ==> forall u :: u in users ==> u.id != id
  {
    if users == [] then None
    else if users[0].id == id then Some(0)
    else match UserIndex(users[1..], id)
      case Some(k) => Some(k + 1)
      case None => None
  }

  /** `CustomUser.objects.get(username=name)`. */
  function UserNamed(users: seq<UserRow>, name: string): (r: Option<nat>)
    ensures r.Some? ==> r.value < |users| && users[r.value].username == name
    ensures r.None? ==> forall u :: u in users ==> u.username != name
  {
    if users == [] then None
    else if users[0].username == name then Some(0)
    else match UserNamed(users[1..], name)
      case Some(k) => Some(k + 1)
      case None => None
  }

  /** The ledger row for a (user, company) pair. */
  function PairIndex(rows: seq<Assignment>, user: nat, isin: string): (r: Option<nat>)
    ensures r.Some? ==> r.value < |rows| && rows[r.value].user == user && rows[r.value].isin == isin
    ensures r.None? ==> forall a :: a in rows ==> !(a.user == user && a.isin == isin)
  {
    if rows == [] then None
    else if rows[0].user == user && rows[0].isin == isin then Some(0)
    else match PairIndex(rows[1..], user, isin)
      case Some(k) => Some(k + 1)
      case None => None
  }

  /** The ledger row with primary key `id`. */
  function RowIndex(rows: seq<Assignment>, id: int): (r: Option<nat>)
    ensures r.Some? ==> r.value < |rows| && rows[r.value].id == id
    ensures r.None? ==> forall a :: a in rows ==> a.id != id
  {
    if rows == [] then None
    else if rows[0].id == id then Some(0)
    else match RowIndex(rows[1..], id)
      case Some(k) => Some(k + 1)
      case None => None
  }

  function ReportIndex(reports: seq<Report>, id: int): (r: Option<nat>)
    ensures r.Some? ==> r.value < |reports| && reports[r.value].id == id
    ensures r.None? ==> forall x :: x in reports ==> x.id != id
  {
    if reports == [] then None
    else if reports[0].id == id then Some(0)
    else match ReportIndex(reports[1..], id)
      case Some(k) => Some(k + 1)
      case None => None
  }

  function OwnershipIndex(owned: seq<Ownership>, id: int): (r: Option<nat>)
    ensures r.Some? ==> r.value < |owned| && owned[r.value].id == id
    ensures r.None? ==> forall o :: o in owned ==> o.id != id
  {
    if owned == [] then None
    else if owned[0].id == id then Some(0)
    else match OwnershipIndex(owned[1..], id)
      case Some(k) => Some(k + 1)
      case None => None
  }

  function OwnershipPair(owned: seq<Ownership>, user: nat, report: nat): (r: Option<nat>)
    ensures r.Some? ==> r.value < |owned| && owned[r.value].user == user && owned[r.value].report == report
    ensures r.None? ==> forall o :: o in owned ==> !(o.user == user && o.report == report)
  {
    if owned == [] then None
    else if owned[0].user == user && owned[0].report == report then Some(0)
    else match OwnershipPair(owned[1..], user, report)
      case Some(k) => Some(k + 1)
      case None => None
  }

  /** `queryset.filter(...)` on the ledger: the rows satisfying `keep`, in order. */
  function Filter(rows: seq<Assignment>, keep: Assignment -> bool): (r: seq<Assignment>)
    ensures |r| <= |rows|
    ensures forall a :: a in r <==> a in rows && keep(a)
  {
    if rows == [] then []
    else (if keep(rows[0]) then [rows[0]] else []) + Filter(rows[1..], keep)
  }

  /** The number of rows satisfying `keep` (`queryset.count()`). */
  function Count(rows: seq<Assignment>, keep: Assignment -> bool): nat {
    if rows == [] then 0
    else (if keep(rows[0]) then 1 else 0) + Count(rows[1..], keep)
  }

  /** Rows of user `uid`. */
  function OfUser(uid: nat): Assignment -> bool {
    (a: Assignment) => a.user == uid
  }

  /** Rows of users other than `uid`. */
  function NotOfUser(uid: nat): Assignment -> bool {
    (a: Assignment) => a.user != uid
  }

  /** Active rows of user `uid`. */
  function ActiveOfUser(uid: nat): Assignment -> bool {
    (a: Assignment) => a.user == uid && a.isActive
  }

  /** Rows for companies other than `isin`. */
  function NotOfCompany(isin: string): Assignment -> bool {
    (a: Assignment) => a.isin != isin
  }

  /** Active rows for company `isin`. */
  function ActiveOfCompany(isin: string): Assignment -> bool {
    (a: Assignment) => a.isin == isin && a.isActive
  }

  /** Active rows of any user. */
  function ActiveRow(): Assignment -> bool {
    (a: Assignment) => a.isActive
  }

  /** Rows other than the one with primary key `id`. */
  function NotId(id: nat): Assignment -> bool {
    (a: Assignment) => a.id != id
  }

  /** A filter keeps exactly the counted rows; the complementary filter keeps the rest. */
  lemma {:induction false} FilterCount(rows: seq<Assignment>, keep: Assignment -> bool, drop: Assignment -> bool)
    requires forall a :: drop(a) == !keep(a)
    ensures |Filter(rows, keep)| == Count(rows, keep)
    ensures |Filter(rows, drop)| == |rows| - Count(rows, keep)
  {
    if rows != [] {
      FilterCount(rows[1..], keep, drop);
    }
  }

  /** The tail of a chronological ledger is chronological and later than its head. */
  lemma TailChronological(rows: seq<Assignment>)
    requires rows != [] && Chronological(rows)
    ensures Chronological(rows[1..])
    ensures forall a :: a in rows[1..] ==> rows[0].id < a.id && rows[0].assignedAt < a.assignedAt
  {
    forall a | a in rows[1..] ensures rows[0].id < a.id && rows[0].assignedAt < a.assignedAt {
      var j :| 0 <= j < |rows[1..]| && rows[1..][j] == a;
      assert rows[j + 1] == a;
    }
  }

  /** The tail of a ledger with unique pairs has unique pairs, none equal to the head's. */
  lemma TailUniquePairs(rows: seq<Assignment>)
    requires rows != [] && UniquePairs(rows)
    ensures UniquePairs(rows[1..])
    ensures forall a :: a in rows[1..] ==> !(a.user == rows[0].user && a.isin == rows[0].isin)
  {
    var t := rows[1..];
    forall i, j | 0 <= i < |t| && 0 <= j < |t| && t[i].user == t[j].user && t[i].isin == t[j].isin
      ensures i == j
    {
      assert rows[i + 1] == t[i] && rows[j + 1] == t[j];
    }
    forall a | a in t ensures !(a.user == rows[0].user && a.isin == rows[0].isin) {
      var j :| 0 <= j < |t| && t[j] == a;
      assert rows[j + 1] == a;
    }
  }

  /** Putting an older row in front of a chronological ledger keeps it chronological. */
  lemma ConsChronological(x: Assignment, rest: seq<Assignment>)
    requires Chronological(rest)
    requires forall a :: a in rest ==> x.id < a.id && x.assignedAt < a.assignedAt
    ensures Chronological([x] + rest)
  {
    var r := [x] + rest;
    forall i, j | 0 <= i < j < |r| ensures r[i].id < r[j].id && r[i].assignedAt < r[j].assignedAt {
      assert r[j] == rest[j - 1];
      if i > 0 { assert r[i] == rest[i - 1]; }
    }
  }

  /** Putting a row with a new pair in front keeps pairs unique. */
  lemma ConsUniquePairs(x: Assignment, rest: seq<Assignment>)
    requires UniquePairs(rest)
    requires forall a :: a in rest ==> !(a.user == x.user && a.isin == x.isin)
    ensures UniquePairs([x] + rest)
  {
    var r := [x] + rest;
    forall i, j | 0 <= i < |r| && 0 <= j < |r| && r[i].user == r[j].user && r[i].isin == r[j].isin
      ensures i == j
    {
      if i > 0 { assert r[i] == rest[i - 1]; }
      if j > 0 { assert r[j] == rest[j - 1]; }
    }
  }

  /** Filtering keeps creation order. */
  lemma {:induction false} FilterChronological(rows: seq<Assignment>, keep: Assignment -> bool)
    requires Chronological(rows)
    ensures Chronological(Filter(rows, keep))
  {
    if rows != [] {
      TailChronological(rows);
      FilterChronological(rows[1..], keep);
      if keep(rows[0]) {
        ConsChronological(rows[0], Filter(rows[1..], keep));
      } else {
        assert Filter(rows, keep) == Filter(rows[1..], keep);
      }
    }
  }

  /** Filtering keeps pairs unique. */
  lemma {:induction false} FilterUniquePairs(rows: seq<Assignment>, keep: Assignment -> bool)
    requires UniquePairs(rows)
    ensures UniquePairs(Filter(rows, keep))
  {
    if rows != [] {
      TailUniquePairs(rows);
      FilterUniquePairs(rows[1..], keep);
      if keep(rows[0]) {
        ConsUniquePairs(rows[0], Filter(rows[1..], keep));
      } else {
        assert Filter(rows, keep) == Filter(rows[1..], keep);
      }
    }
  }

  /** Filtering keeps creation order and pair uniqueness. */
  lemma FilterKeeps(rows: seq<Assignment>, keep: Assignment -> bool)
    requires Chronological(rows) && UniquePairs(rows)
    ensures Chronological(Filter(rows, keep)) && UniquePairs(Filter(rows, keep))
  {
    FilterChronological(rows, keep);
    FilterUniquePairs(rows, keep);
  }

  /** `on_delete=SET_NULL` for one row: a grant made by `uid` loses its grantor. */
  function Nullify(a: Assignment, uid: nat): Assignment {
    if a.assignedBy == Some(uid) then a.(assignedBy := None) else a
  }

  /** `Nullify` on every row, in order. */
  function NullifyAll(rows: seq<Assignment>, uid: nat): (r: seq<Assignment>)
    ensures |r| == |rows|
    ensures forall i :: 0 <= i < |rows| ==> r[i] == Nullify(rows[i], uid)
  {
    if rows == [] then [] else [Nullify(rows[0], uid)] + NullifyAll(rows[1..], uid)
  }

  /**
   * Deleting user `uid` as the database does it: the user's own rows go
   * (CASCADE), the grants the user made to others stay with no grantor
   * (SET_NULL).
   */
  function CascadeUser(rows: seq<Assignment>, uid: nat): seq<Assignment> {
    NullifyAll(Filter(rows, NotOfUser(uid)), uid)
  }

  /** `CascadeUser` removes exactly `uid`'s rows and only clears `assigned_by` on the rest. */
  lemma CascadeUserRows(rows: seq<Assignment>, uid: nat, a: Assignment)
    ensures a in CascadeUser(rows, uid) ==> a.user != uid && a.assignedBy != Some(uid)
    ensures a in CascadeUser(rows, uid) ==> exists b :: b in rows && b.user != uid && a == Nullify(b, uid)
    ensures a in rows && a.user != uid ==> Nullify(a, uid) in CascadeUser(rows, uid)
  {
    var kept := Filter(rows, NotOfUser(uid));
    if a in CascadeUser(rows, uid) {
      var i :| 0 <= i < |kept| && CascadeUser(rows, uid)[i] == a;
      assert kept[i] in kept;
    }
    if a in rows && a.user != uid {
      assert a in kept;
      var i :| 0 <= i < |kept| && kept[i] == a;
      assert CascadeUser(rows, uid)[i] == Nullify(a, uid);
    }
  }

  /** Clearing a grantor keeps ids, pairs and stamps, hence order and uniqueness. */
  lemma NullifyKeeps(rows: seq<Assignment>, uid: nat)
    ensures Chronological(rows) ==> Chronological(NullifyAll(rows, uid))
    ensures UniquePairs(rows) ==> UniquePairs(NullifyAll(rows, uid))
  {
    var r := NullifyAll(rows, uid);
    assert forall i :: 0 <= i < |rows| ==>
      r[i].id == rows[i].id && r[i].assignedAt == rows[i].assignedAt && r[i].user == rows[i].user && r[i].isin == rows[i].isin;
  }

  /** Removing row `k` keeps ISINs unique and removes exactly that row's ISIN. */
  lemma RemoveCompany(cs: seq<Company>, k: nat)
    requires UniqueIsins(cs) && k < |cs|
    ensures UniqueIsins(cs[..k] + cs[k + 1..])
    ensures Isins(cs[..k] + cs[k + 1..]) == Isins(cs) - {cs[k].isin}
  {
    var rest := cs[..k] + cs[k + 1..];
    forall i, j | 0 <= i < |rest| && 0 <= j < |rest| && rest[i].isin == rest[j].isin ensures i == j {
      var i' := if i < k then i else i + 1;
      var j' := if j < k then j else j + 1;
      assert rest[i] == cs[i'] && rest[j] == cs[j'];
    }
    forall c | c in cs ensures c in rest || c.isin == cs[k].isin {
      var i :| 0 <= i < |cs| && cs[i] == c;
      if i < k { assert rest[i] == c; } else if i > k { assert rest[i - 1] == c; }
    }
    forall c | c in rest ensures c in cs && c.isin != cs[k].isin {
      var i :| 0 <= i < |rest| && rest[i] == c;
      if i < k { assert cs[i] == c; } else { assert cs[i + 1] == c; }
    }
  }

  /** Removing the user at `k` removes exactly that id. */
  lemma RemoveUser(users: seq<UserRow>, k: nat)
    requires UniqueUserIds(users) && k < |users|
    ensures UniqueUserIds(users[..k] + users[k + 1..])
    ensures UserIds(users[..k] + users[k + 1..]) == UserIds(users) - {users[k].id}
  {
    var rest := users[..k] + users[k + 1..];
    forall i, j | 0 <= i < |rest| && 0 <= j < |rest| && rest[i].id == rest[j].id ensures i == j {
      var i' := if i < k then i else i + 1;
      var j' := if j < k then j else j + 1;
      assert rest[i] == users[i'] && rest[j] == users[j'];
    }
    forall u | u in users ensures u in rest || u.id == users[k].id {
      var i :| 0 <= i < |users| && users[i] == u;
      if i < k { assert rest[i] == u; } else if i > k { assert rest[i - 1] == u; }
    }
    forall u | u in rest ensures u in users && u.id != users[k].id {
      var i :| 0 <= i < |rest| && rest[i] == u;
      var i' := if i < k then i else i + 1;
      assert rest[i] == users[i'];
    }
  }

  /** Removing the user at `k` keeps usernames and emails unique. */
  lemma RemoveUserKeepsNames(users: seq<UserRow>, k: nat)
    requires UniqueUsernames(users) && UniqueEmails(users) && k < |users|
    ensures UniqueUsernames(users[..k] + users[k + 1..]) && UniqueEmails(users[..k] + users[k + 1..])
  {
    var rest := users[..k] + users[k + 1..];
    forall i | 0 <= i < |rest| ensures rest[i] == users[if i < k then i else i + 1] {}
  }

  /** The ledger part of `Valid` survives deleting the user at `k`. */
  lemma CascadeValid(rows: seq<Assignment>, users: seq<UserRow>, companies: seq<Company>, k: nat, nextId: nat, clock: nat)
    requires UniqueUserIds(users) && k < |users|
    requires UniquePairs(rows) && Chronological(rows) && LedgerRefs(rows, users, companies)
    requires forall a :: a in rows ==> a.id < nextId && a.assignedAt < clock
    ensures UniqueUserIds(users[..k] + users[k + 1..])
    ensures UniquePairs(CascadeUser(rows, users[k].id)) && Chronological(CascadeUser(rows, users[k].id))
    ensures LedgerRefs(CascadeUser(rows, users[k].id), users[..k] + users[k + 1..], companies)
    ensures forall a :: a in CascadeUser(rows, users[k].id) ==> a.id < nextId && a.assignedAt < clock
  {
    var uid := users[k].id;
    RemoveUser(users, k);
    FilterKeeps(rows, NotOfUser(uid));
    NullifyKeeps(Filter(rows, NotOfUser(uid)), uid);
    forall a | a in CascadeUser(rows, uid)
      ensures a.user in UserIds(users[..k] + users[k + 1..]) && a.isin in Isins(companies)
              && (a.assignedBy.Some? ==> a.assignedBy.value in UserIds(users[..k] + users[k + 1..]))
              && a.id < nextId && a.assignedAt < clock
    {
      CascadeUserRows(rows, uid, a);
    }
  }

  /** The constraints of backend/api/models.py over the tables, and the counters' bounds. */
  ghost predicate Consistent(users: seq<UserRow>, companies: seq<Company>, assignments: seq<Assignment>,
                             reports: seq<Report>, owned: seq<Ownership>, nextId: nat, clock: nat)
  {
    && UniqueUserIds(users)
    && UniqueUsernames(users)
    && UniqueEmails(users)
    && UniqueIsins(companies)
    && UniquePairs(assignments)
    && Chronological(assignments)
    && (forall a :: a in assignments ==> a.id < nextId && a.assignedAt < clock)
    && LedgerRefs(assignments, users, companies)
    && UniqueReports(reports)
    && UniqueOwnership(owned)
    && (forall o :: o in owned ==> o.id < nextId)
    && OwnershipRefs(owned, users, reports)
  }

  /** Appending a row that takes the next id and stamp and a free pair keeps the tables consistent. */
  lemma AppendConsistent(users: seq<UserRow>, companies: seq<Company>, assignments: seq<Assignment>,
                         reports: seq<Report>, owned: seq<Ownership>, nextId: nat, clock: nat, a: Assignment)
    requires Consistent(users, companies, assignments, reports, owned, nextId, clock)
    requires a.id == nextId && a.assignedAt == clock
    requires a.user in UserIds(users) && a.isin in Isins(companies)
    requires a.assignedBy.Some? ==> a.assignedBy.value in UserIds(users)
    requires PairIndex(assignments, a.user, a.isin).None?
    ensures Consistent(users, companies, assignments + [a], reports, owned, nextId + 1, clock + 1)
  {
    AppendUniquePairs(assignments, a);
    AppendChronological(assignments, a, nextId, clock);
    var rows := assignments + [a];
    assert forall b :: b in rows ==> b == a || b in assignments;
  }

  /** A row for a free pair keeps the pairs unique. */
  lemma AppendUniquePairs(rows: seq<Assignment>, a: Assignment)
    requires UniquePairs(rows) && PairIndex(rows, a.user, a.isin).None?
    ensures UniquePairs(rows + [a])
  {
    var next := rows + [a];
    forall i, j | 0 <= i < |next| && 0 <= j < |next| && next[i].user == next[j].user && next[i].isin == next[j].isin
      ensures i == j
    {
      if i < |rows| { assert next[i] == rows[i] && rows[i] in rows; }
      if j < |rows| { assert next[j] == rows[j] && rows[j] in rows; }
    }
  }

  /** A row with an id and a stamp above every existing one keeps the ledger chronological. */
  lemma AppendChronological(rows: seq<Assignment>, a: Assignment, nextId: nat, clock: nat)
    requires Chronological(rows)
    requires forall b :: b in rows ==> b.id < nextId && b.assignedAt < clock
    requires a.id == nextId && a.assignedAt == clock
    ensures Chronological(rows + [a])
  {
    var next := rows + [a];
    forall i, j | 0 <= i < j < |next| ensures next[i].id < next[j].id && next[i].assignedAt < next[j].assignedAt {
      assert next[i] == rows[i] && rows[i] in rows;
    }
  }

  /** Removing the `UserReport` row at `k` keeps the rest ordered, unique and well referenced. */
  lemma RemoveOwnership(owned: seq<Ownership>, users: seq<UserRow>, reports: seq<Report>, k: nat, nextId: nat)
    requires UniqueOwnership(owned) && OwnershipRefs(owned, users, reports) && k < |owned|
    requires forall o :: o in owned ==> o.id < nextId
    ensures UniqueOwnership(owned[..k] + owned[k + 1..])
    ensures OwnershipRefs(owned[..k] + owned[k + 1..], users, reports)
    ensures forall o :: o in owned[..k] + owned[k + 1..] ==> o.id < nextId
  {
    var rest := owned[..k] + owned[k + 1..];
    forall i | 0 <= i < |rest| ensures rest[i] == owned[if i < k then i else i + 1] {}
    forall o | o in rest ensures o in owned {
      var i :| 0 <= i < |rest| && rest[i] == o;
      assert owned[if i < k then i else i + 1] == o;
    }
  }

  /** Deleting the user at `k`, with its cascades, keeps the tables consistent. */
  lemma DeleteUserConsistent(users: seq<UserRow>, companies: seq<Company>, assignments: seq<Assignment>,
                             reports: seq<Report>, owned: seq<Ownership>, nextId: nat, clock: nat, k: nat)
    requires Consistent(users, companies, assignments, reports, owned, nextId, clock) && k < |users|
    ensures Consistent(users[..k] + users[k + 1..], companies, CascadeUser(assignments, users[k].id),
                       reports, OwnedCascade(owned, users[k].id), nextId, clock)
  {
    CascadeValid(assignments, users, companies, k, nextId, clock);
    OwnedCascadeValid(owned, users, reports, k, nextId);
    RemoveUserKeepsNames(users, k);
  }

  class Database {
    var users: seq<UserRow>
    var companies: seq<Company>
    var assignments: seq<Assignment>
    var reports: seq<Report>
    var owned: seq<Ownership>
    /** The next id the database hands out. */
    var nextId: nat
    /** The current time, as a counter: every `auto_now_add` stamp is below it. */
    var clock: nat

    /** The constraints of backend/api/models.py and the counters' bounds. */
    ghost predicate Valid()
      reads this
    {
      Consistent(users, companies, assignments, reports, owned, nextId, clock)
    }

    /** An empty database. */
    constructor ()
      ensures Valid()
      ensures users == [] && companies == [] && assignments == [] && reports == [] && owned == []
    {
      users := [];
      companies := [];
      assignments := [];
      reports := [];
      owned := [];
      nextId := 1;
      clock := 0;
    }

    /**
     * `UserCompany.objects.create(...)`: a new active row for a pair that has
     * none, with a fresh id and the current time as `assigned_at`.
     */
    method AddAssignment(user: nat, isin: string, grantor: Option<nat>, notes: Option<string>) returns (id: nat)
      requires Valid()
      requires user in UserIds(users) && isin in Isins(companies)
      requires grantor.Some? ==> grantor.value in UserIds(users)
      requires PairIndex(assignments, user, isin).None?
      modifies this`assignments, this`nextId, this`clock
      ensures Valid()
      ensures id == old(nextId)
      ensures assignments == old(assignments) + [Assignment(id, user, isin, grantor, old(clock), true, notes)]
      ensures users == old(users) && companies == old(companies) && reports == old(reports) && owned == old(owned)
      ensures nextId == old(nextId) + 1 && clock == old(clock) + 1
    {
      id := nextId;
      AppendConsistent(users, companies, assignments, reports, owned, nextId, clock,
                       Assignment(id, user, isin, grantor, clock, true, notes));
      assignments := assignments + [Assignment(id, user, isin, grantor, clock, true, notes)];
      nextId := nextId + 1;
      clock := clock + 1;
    }

    /** Saves row `k` after its `is_active`, `assigned_by` or `notes` changed. */
    method UpdateAssignment(k: nat, isActive: bool, grantor: Option<nat>, notes: Option<string>)
      requires Valid()
      requires k < |assignments|
      requires grantor.Some? ==> grantor.value in UserIds(users)
      modifies this`assignments
      ensures Valid()
      ensures assignments == old(assignments)[k := old(assignments)[k].(isActive := isActive, assignedBy := grantor, notes := notes)]
    {
      var a := assignments[k];
      assignments := assignments[k := a.(isActive := isActive, assignedBy := grantor, notes := notes)];
      assert forall b :: b in assignments ==> b == assignments[k] || b in old(assignments);
    }

    /**
     * Saves row `k` after an edit of every editable column: user, company,
     * `is_active`, `assigned_by` and `notes`. The new (user, company) pair must
     * be free or already be row `k`'s.
     */
    method EditAssignment(k: nat, user: nat, isin: string, isActive: bool, grantor: Option<nat>, notes: Option<string>)
      requires Valid()
      requires k < |assignments|
      requires user in UserIds(users) && isin in Isins(companies)
      requires grantor.Some? ==> grantor.value in UserIds(users)
      requires PairIndex(assignments, user, isin).None? || PairIndex(assignments, user, isin) == Some(k)
      modifies this`assignments
      ensures Valid()
      ensures assignments == old(assignments)[k := old(assignments)[k].(user := user, isin := isin, isActive := isActive,
                                                                        assignedBy := grantor, notes := notes)]
    {
      var rows := assignments;
      var a := rows[k].(user := user, isin := isin, isActive := isActive, assignedBy := grantor, notes := notes);
      var next := rows[k := a];
      forall i | 0 <= i < |rows| && i != k
        ensures !(rows[i].user == user && rows[i].isin == isin)
      {
        assert rows[i] in rows;
      }
      assert UniquePairs(next);
      assert forall b :: b in next ==> b == a || b in rows;
      assignments := next;
    }

    /** `user_company.delete()` for row `k`. */
    method DeleteAssignmentAt(k: nat)
      requires Valid()
      requires k < |assignments|
      modifies this`assignments
      ensures Valid()
      ensures assignments == Filter(old(assignments), NotId(old(assignments)[k].id))
    {
      var id := assignments[k].id;
      FilterKeeps(assignments, NotId(id));
      assignments := Filter(assignments, NotId(id));
    }

    /** `UserCompany.objects.filter(user=user).delete()`; returns the number deleted. */
    method DeleteAssignmentsOf(user: nat) returns (count: nat)
      requires Valid()
      modifies this`assignments
      ensures Valid()
      ensures assignments == Filter(old(assignments), NotOfUser(user))
      ensures count == Count(old(assignments), OfUser(user))
    {
      count := Count(assignments, OfUser(user));
      FilterKeeps(assignments, NotOfUser(user));
      assignments := Filter(assignments, NotOfUser(user));
    }

    /**
     * `user.delete()`: the user row goes; ledger and ownership rows of the
     * user cascade away; rows the user granted to others keep existing with
     * `assigned_by` null.
     */
    method DeleteUserAt(k: nat)
      requires Valid()
      requires k < |users|
      modifies this
      ensures Valid()
      ensures users == old(users)[..k] + old(users)[k + 1..]
      ensures assignments == CascadeUser(old(assignments), old(users)[k].id)
      ensures owned == OwnedCascade(old(owned), old(users)[k].id)
      ensures companies == old(companies) && reports == old(reports)
      ensures nextId == old(nextId) && clock == old(clock)
    {
      var uid := users[k].id;
      var newUsers := users[..k] + users[k + 1..];
      var newRows := CascadeUser(assignments, uid);
      var newOwned := OwnedCascade(owned, uid);
      DeleteUserConsistent(users, companies, assignments, reports, owned, nextId, clock, k);
      users, assignments, owned := newUsers, newRows, newOwned;
    }

    /** `Company.objects.all().delete()`: every ledger row cascades away. */
    method DeleteAllCompanies()
      requires Valid()
      modifies this`companies, this`assignments
      ensures Valid()
      ensures companies == [] && assignments == []
    {
      companies := [];
      assignments := [];
    }

    /** `company.delete()` for row `k`: the company's ledger rows cascade away. */
    method DeleteCompanyAt(k: nat)
      requires Valid()
      requires k < |companies|
      modifies this`companies, this`assignments
      ensures Valid()
      ensures companies == old(companies)[..k] + old(companies)[k + 1..]
      ensures assignments == Filter(old(assignments), NotOfCompany(old(companies)[k].isin))
    {
      var isin := companies[k].isin;
      var rest := companies[..k] + companies[k + 1..];
      RemoveCompany(companies, k);
      FilterKeeps(assignments, NotOfCompany(isin));
      forall a | a in Filter(assignments, NotOfCompany(isin))
        ensures a.user in UserIds(users) && a.isin in Isins(rest)
                && (a.assignedBy.Some? ==> a.assignedBy.value in UserIds(users))
      {
      }
      companies := rest;
      assignments := Filter(assignments, NotOfCompany(isin));
    }

    /** `update_or_create` keyed by ISIN: the ledger is not touched. */
    method PutCompany(c: Company)
      requires Valid()
      modifies this`companies
      ensures Valid()
      ensures companies == Upsert(old(companies), c)
    {
      companies := Upsert(companies, c);
    }

    /** `UserReport.objects.create(...)`. */
    method AddOwnership(user: nat, report: nat, grantor: Option<nat>, notes: Option<string>) returns (id: nat)
      requires Valid()
      requires user in UserIds(users) && report in ReportIds(reports)
      requires grantor.Some? ==> grantor.value in UserIds(users)
      requires OwnershipPair(owned, user, report).None?
      modifies this
      ensures Valid()
      ensures id == old(nextId)
      ensures owned == old(owned) + [Ownership(id, user, report, grantor, notes)]
      ensures users == old(users) && companies == old(companies) && reports == old(reports)
      ensures assignments == old(assignments) && clock == old(clock) && nextId == old(nextId) + 1
    {
      id := nextId;
      owned := owned + [Ownership(id, user, report, grantor, notes)];
      nextId := nextId + 1;
    }

    /** `user_report.delete()` for row `k`. */
    method DeleteOwnershipAt(k: nat)
      requires Valid()
      requires k < |owned|
      modifies this`owned
      ensures Valid()
      ensures owned == old(owned)[..k] + old(owned)[k + 1..]
    {
      RemoveOwnership(owned, users, reports, k, nextId);
      owned := owned[..k] + owned[k + 1..];
    }
  }

  /** The same cascade for `UserReport`: `user` CASCADE, `assigned_by` SET_NULL. */
  function OwnedCascade(owned: seq<Ownership>, uid: nat): seq<Ownership> {
    if owned == [] then []
    else
      var o := owned[0];
      var rest := OwnedCascade(owned[1..], uid);
      if o.user == uid then rest
      else [if o.assignedBy == Some(uid) then o.(assignedBy := None) else o] + rest
  }

  /** The `UserReport` part of `Valid` survives deleting the user at `k`. */
  lemma OwnedCascadeValid(owned: seq<Ownership>, users: seq<UserRow>, reports: seq<Report>, k: nat, nextId: nat)
    requires UniqueUserIds(users) && k < |users|
    requires UniqueOwnership(owned) && OwnershipRefs(owned, users, reports)
    requires forall o :: o in owned ==> o.id < nextId
    ensures UniqueOwnership(OwnedCascade(owned, users[k].id))
    ensures OwnershipRefs(OwnedCascade(owned, users[k].id), users[..k] + users[k + 1..], reports)
    ensures forall o :: o in OwnedCascade(owned, users[k].id) ==> o.id < nextId
  {
    var uid := users[k].id;
    RemoveUser(users, k);
    OwnedCascadeFrom(owned, uid);
    OwnedCascadeUnique(owned, uid);
    forall o | o in OwnedCascade(owned, uid)
      ensures o.user in UserIds(users[..k] + users[k + 1..]) && o.report in ReportIds(reports) && o.id < nextId
              && (o.assignedBy.Some? ==> o.assignedBy.value in UserIds(users[..k] + users[k + 1..]))
    {
      var p :| p in owned && p.id == o.id && p.user == o.user && p.report == o.report
               && (o.assignedBy.Some? ==> o.assignedBy == p.assignedBy);
    }
  }

  /** `o` is a row of another user, as it was in `owned` but for a grantor `uid` that is cleared. */
  predicate SurvivesFrom(o: Ownership, owned: seq<Ownership>, uid: nat) {
    o.user != uid && o.assignedBy != Some(uid)
    && exists p :: p in owned && p.id == o.id && p.user == o.user && p.report == o.report
                   && (o.assignedBy.Some? ==> o.assignedBy == p.assignedBy)
  }

  /**
   * A surviving `UserReport` row is a row of another user, at most losing its
   * grantor; and every row of another user survives, losing its grantor
   * exactly when `uid` granted it.
   */
  lemma {:induction false} OwnedCascadeFrom(owned: seq<Ownership>, uid: nat)
    ensures forall o :: o in OwnedCascade(owned, uid) ==> SurvivesFrom(o, owned, uid)
    ensures forall p :: p in owned && p.user != uid ==>
              (if p.assignedBy == Some(uid) then p.(assignedBy := None) else p) in OwnedCascade(owned, uid)
  {
    if owned != [] {
      OwnedCascadeFrom(owned[1..], uid);
      forall p | p in owned && p.user != uid
        ensures (if p.assignedBy == Some(uid) then p.(assignedBy := None) else p) in OwnedCascade(owned, uid)
      {
        if p != owned[0] {
          assert p in owned[1..];
        }
      }
      forall o | o in OwnedCascade(owned[1..], uid) ensures SurvivesFrom(o, owned, uid) {
        var p :| p in owned[1..] && p.id == o.id && p.user == o.user && p.report == o.report
                 && (o.assignedBy.Some? ==> o.assignedBy == p.assignedBy);
        assert p in owned;
      }
      assert owned[0] in owned;
    }
  }

  lemma TailUniqueOwnership(owned: seq<Ownership>)
    requires owned != [] && UniqueOwnership(owned)
    ensures UniqueOwnership(owned[1..])
    ensures forall p :: p in owned[1..] ==> owned[0].id < p.id && !(p.user == owned[0].user && p.report == owned[0].report)
  {
    var t := owned[1..];
    forall i, j | 0 <= i < j < |t| ensures t[i].id < t[j].id {
      assert owned[i + 1] == t[i] && owned[j + 1] == t[j];
    }
    forall i, j | 0 <= i < |t| && 0 <= j < |t| && t[i].user == t[j].user && t[i].report == t[j].report
      ensures i == j
    {
      assert owned[i + 1] == t[i] && owned[j + 1] == t[j];
    }
    forall p | p in t ensures owned[0].id < p.id && !(p.user == owned[0].user && p.report == owned[0].report) {
      var j :| 0 <= j < |t| && t[j] == p;
      assert owned[j + 1] == p;
    }
  }

  lemma ConsUniqueOwnership(x: Ownership, rest: seq<Ownership>)
    requires UniqueOwnership(rest)
    requires forall p :: p in rest ==> x.id < p.id && !(p.user == x.user && p.report == x.report)
    ensures UniqueOwnership([x] + rest)
  {
    var r := [x] + rest;
    forall i, j | 0 <= i < j < |r| ensures r[i].id < r[j].id {
      assert r[j] == rest[j - 1];
      if i > 0 { assert r[i] == rest[i - 1]; }
    }
    forall i, j | 0 <= i < |r| && 0 <= j < |r| && r[i].user == r[j].user && r[i].report == r[j].report
      ensures i == j
    {
      if i > 0 { assert r[i] == rest[i - 1]; }
      if j > 0 { assert r[j] == rest[j - 1]; }
    }
  }

  lemma {:induction false} OwnedCascadeUnique(owned: seq<Ownership>, uid: nat)
    requires UniqueOwnership(owned)
    ensures UniqueOwnership(OwnedCascade(owned, uid))
  {
    if owned != [] {
      TailUniqueOwnership(owned);
      OwnedCascadeUnique(owned[1..], uid);
      var rest := OwnedCascade(owned[1..], uid);
      if owned[0].user != uid {
        var o := owned[0];
        var x := if o.assignedBy == Some(uid) then o.(assignedBy := None) else o;
        OwnedCascadeFrom(owned[1..], uid);
        forall p | p in rest ensures x.id < p.id && !(p.user == x.user && p.report == x.report) {
          var q :| q in owned[1..] && q.id == p.id && q.user == p.user && q.report == p.report
                   && (p.assignedBy.Some? ==> p.assignedBy == q.assignedBy);
        }
        ConsUniqueOwnership(x, rest);
      }
    }
  }

  function Reverse(rows: seq<Assignment>): (r: seq<Assignment>)
    ensures |r| == |rows|
    ensures forall i :: 0 <= i < |rows| ==> r[i] == rows[|rows| - 1 - i]
  {
    if rows == [] then [] else Reverse(rows[1..]) + [rows[0]]
  }

  /** A queryset under `UserCompany`'s default ordering `-assigned_at`. */
  function NewestFirst(rows: seq<Assignment>, keep: Assignment -> bool): seq<Assignment> {
    Reverse(Filter(rows, keep))
  }

  /** The listing holds exactly the rows `keep` accepts. */
  lemma NewestFirstExact(rows: seq<Assignment>, keep: Assignment -> bool, a: Assignment)
    ensures a in NewestFirst(rows, keep) <==> a in rows && keep(a)
  {
    var f := Filter(rows, keep);
    var r := NewestFirst(rows, keep);
    if a in f {
      var i :| 0 <= i < |f| && f[i] == a;
      assert r[|f| - 1 - i] == a;
    }
    if a in r {
      var i :| 0 <= i < |r| && r[i] == a;
      assert f[|f| - 1 - i] == a;
    }
  }

  /** In a chronological ledger the listing goes from the newest `assigned_at` to the oldest. */
  lemma NewestFirstOrder(rows: seq<Assignment>, keep: Assignment -> bool)
    requires Chronological(rows)
    ensures forall i, j :: 0 <= i < j < |NewestFirst(rows, keep)|
                           ==> NewestFirst(rows, keep)[i].assignedAt > NewestFirst(rows, keep)[j].assignedAt
  {
    FilterChronological(rows, keep);
  }

  /** `my_reports`: the caller's active rows, newest `assigned_at` first. */
  function MyReports(rows: seq<Assignment>, user: nat): seq<Assignment> {
    NewestFirst(rows, ActiveOfUser(user))
  }

  /** `my_reports` lists exactly the caller's active rows, newest first. */
  lemma MyReportsExact(rows: seq<Assignment>, user: nat)
    requires Chronological(rows)
    ensures forall a :: a in MyReports(rows, user) <==> a in rows && a.user == user && a.isActive
    ensures forall i, j :: 0 <= i < j < |MyReports(rows, user)|
                           ==> MyReports(rows, user)[i].assignedAt > MyReports(rows, user)[j].assignedAt
  {
    forall a ensures a in MyReports(rows, user) <==> a in rows && a.user == user && a.isActive {
      NewestFirstExact(rows, ActiveOfUser(user), a);
    }
    NewestFirstOrder(rows, ActiveOfUser(user));
  }

  /** Usernames are unique, so `User.objects.get(username=name)` finds the one user with that name. */
  lemma UserNamedIsTheUser(users: seq<UserRow>, name: string, i: nat)
    requires UniqueUsernames(users) && i < |users| && users[i].username == name
    ensures UserNamed(users, name) == Some(i)
  {
    var k := UserNamed(users, name).value;
    assert users[k].username == users[i].username;
  }
}
