/**
 * The `sync_excel_data` management command
 * (backend/api/management/commands/sync_excel_data.py): each company row of the
 * sheet creates a `Company` keyed by ISIN, or, with `--force`, overwrites the
 * non-empty columns of the existing one. Values are stored as `str(x or '')`,
 * without stripping, and only the legacy score columns are written.
 */
module ExcelSync {
  import opened Wrappers
  import opened Text
  import opened Catalog
  import opened Store

  /** `.str.strip().str.lower().str.replace(' ', '_')` on one column name. */
  function NormalizeColumn(c: string): string {
    ReplaceAll(Lower(Strip(c)), " ", "_")
  }

  function NormalizeColumns(columns: seq<string>): (r: seq<string>)
    ensures |r| == |columns|
    ensures forall i :: 0 <= i < |columns| ==> r[i] == NormalizeColumn(columns[i])
  {
    seq(|columns|, i requires 0 <= i < |columns| => NormalizeColumn(columns[i]))
  }

  /**
   * A normalised name keeps the stripped length, is lower-case, has no space
   * left in it and no whitespace at either end.
   */
  lemma NormalizeColumnShape(c: string)
    ensures |NormalizeColumn(c)| == |Strip(c)|
    ensures IsLower(NormalizeColumn(c))
    ensures forall i :: 0 <= i < |NormalizeColumn(c)| ==> NormalizeColumn(c)[i] != ' '
    ensures NormalizeColumn(c) != [] ==> !IsSpace(NormalizeColumn(c)[0]) && !IsSpace(NormalizeColumn(c)[|NormalizeColumn(c)| - 1])
  {
    var t := Lower(Strip(c));
    ReplaceCharAt(t, ' ', '_');
    var r := NormalizeColumn(c);
    if r != [] {
      CaseKeepsSpace(Strip(c)[0]);
      CaseKeepsSpace(Strip(c)[|r| - 1]);
    }
  }

  /** Normalising an already normalised name changes nothing. */
  lemma NormalizeColumnIdempotent(c: string)
    ensures NormalizeColumn(NormalizeColumn(c)) == NormalizeColumn(c)
  {
    var r := NormalizeColumn(c);
    NormalizeColumnShape(c);
    StripNoop(r);
    assert Lower(r) == r;
    ReplaceCharAt(r, ' ', '_');
  }

  /** `_safe_get(row, key)`: absent for a missing column or a NaN cell, the cell otherwise. */
  function SafeGet(columns: seq<string>, row: seq<Cell>, key: string): (r: Option<Cell>)
    ensures key !in columns ==> r.None?
    ensures key in columns && RowGet(columns, row, key) == Some(NaN) ==> r.None?
    ensures key in columns && RowGet(columns, row, key) != Some(NaN) ==> r == RowGet(columns, row, key)
  {
    match RowGet(columns, row, key)
    case Some(c) => if c.NaN? then None else Some(c)
    case None => None
  }

  /** `str(self._safe_get(row, key) or '')`: a falsy cell ("" or zero) reads as "". */
  function SafeText(columns: seq<string>, row: seq<Cell>, key: string): (r: string)
    ensures SafeGet(columns, row, key).None? ==> r == ""
    ensures SafeGet(columns, row, key).Some? ==>
              r == if CellTruthy(SafeGet(columns, row, key).value) then CellStr(SafeGet(columns, row, key).value) else ""
  {
    match SafeGet(columns, row, key)
    case Some(c) => if CellTruthy(c) then CellStr(c) else ""
    case None => ""
  }

  /** `_is_company_row`: one of the indicator columns is present and not NaN. */
  predicate IsCompanyRow(columns: seq<string>, row: seq<Cell>) {
    NotNa(columns, row, "company_name") || NotNa(columns, row, "isin")
    || NotNa(columns, row, "sector") || NotNa(columns, row, "esg_pillar")
  }

  /**
   * `_has_company_data`: the name column is present and not NaN. Every such
   * row is already a company row, so the fallback branch of `handle` never
   * processes a company.
   */
  predicate HasCompanyData(columns: seq<string>, row: seq<Cell>)
    ensures HasCompanyData(columns, row) ==> IsCompanyRow(columns, row)
  {
    NotNa(columns, row, "company_name")
  }

  /** The sheet column (after normalisation) each written `Company` column comes from. */
  function SyncSource(f: Field): Option<string> {
    match f
    case CompanyName => Some("company_name")
    case Sector => Some("sector")
    case EsgSector => Some("esg_sector")
    case BseSymbol => Some("bse_symbol")
    case NseSymbol => Some("nse_symbol")
    case MarketCap => Some("mcap")
    case EsgScore => Some("esg_pillar")
    case EScore => Some("e_pillar")
    case SScore => Some("s_pillar")
    case GScore => Some("g_pillar")
    case Positive => Some("positive_screen")
    case Negative => Some("negative_screen")
    case Controversy => Some("controversy_rating")
    case Composite => Some("composite_rating")
    case Grade => Some("esg_rating")
    case _ => None
  }

  /** The columns `company_data` holds besides the ISIN. */
  const SyncFields: set<Field> := {
    CompanyName, Sector, EsgSector, BseSymbol, NseSymbol, MarketCap,
    EsgScore, EScore, SScore, GScore, Positive, Negative, Controversy, Composite, Grade
  }

  /** `company_data` without its ISIN entry. */
  function CompanyData(columns: seq<string>, row: seq<Cell>): (r: map<Field, string>)
    ensures forall f :: f in r <==> f in SyncFields
  {
    map f | f in SyncFields :: match SyncSource(f) case Some(k) => SafeText(columns, row, k) case None => ""
  }

  /** The row is skipped: its name or its ISIN is absent, NaN or falsy. */
  predicate SyncSkipped(columns: seq<string>, row: seq<Cell>) {
    var name := SafeGet(columns, row, "company_name");
    var isin := SafeGet(columns, row, "isin");
    !(name.Some? && CellTruthy(name.value)) || !(isin.Some? && CellTruthy(isin.value))
  }

  /** `str(isin)`, the primary key of the row's company. */
  function RowIsin(columns: seq<string>, row: seq<Cell>): string {
    match SafeGet(columns, row, "isin")
    case Some(c) => CellStr(c)
    case None => ""
  }

  /** `Company.objects.create(**company_data)`: unlisted columns NULL, no report. */
  function NewCompany(columns: seq<string>, row: seq<Cell>): Company {
    Company(RowIsin(columns, row), CompanyData(columns, row), None, false)
  }

  /** The `--force` update: each non-empty value overwrites its column, the rest stay. */
  function MergeNonEmpty(c: Company, data: map<Field, string>): (r: Company)
    ensures r.isin == c.isin && r.pdfFilename == c.pdfFilename && r.hasPdfReport == c.hasPdfReport
    ensures forall f :: f in data && data[f] != "" ==> r.Column(f) == Some(data[f])
    ensures forall f :: !(f in data && data[f] != "") ==> r.Column(f) == c.Column(f)
  {
    var text := map f | f in c.text.Keys + data.Keys && (f in c.text || data[f] != "")
                      :: if f in data && data[f] != "" then data[f] else c.text[f];
    c.(text := text)
  }

  /** What `_process_company_row` returns, or the exception it raises. */
  datatype RowResult = Done(created: bool, updated: bool) | Raised

  /**
   * One company row: the table after it and its result. `fails` says the
   * database rejects the row's write.
   */
  function SyncRow(cs: seq<Company>, columns: seq<string>, row: seq<Cell>, force: bool, fails: bool): (seq<Company>, RowResult) {
    if !IsCompanyRow(columns, row) || SyncSkipped(columns, row) then (cs, Done(false, false))
    else match IsinIndex(cs, RowIsin(columns, row))
      case Some(k) =>
        if !force then (cs, Done(false, false))
        else if fails then (cs, Raised)
        else (cs[k := MergeNonEmpty(cs[k], CompanyData(columns, row))], Done(false, true))
      case None =>
        if fails then (cs, Raised)
        else (cs + [NewCompany(columns, row)], Done(true, false))
  }

  /** The table and the two company counters. */
  datatype Tally = Tally(companies: seq<Company>, created: nat, updated: nat)

  /** The table and counters after the given rows; row `i` fails when `i in failing`. */
  function SyncRows(cs: seq<Company>, columns: seq<string>, rows: seq<seq<Cell>>, force: bool, failing: set<nat>): Tally
    decreases |rows|
  {
    if rows == [] then Tally(cs, 0, 0)
    else Step(SyncRows(cs, columns, rows[..|rows| - 1], force, failing), columns, rows[|rows| - 1], force, |rows| - 1 in failing)
  }

  /** One row of the loop: the table changes as `SyncRow` says and the counter it reports goes up. */
  function Step(t: Tally, columns: seq<string>, row: seq<Cell>, force: bool, fails: bool): Tally {
    var (next, result) := SyncRow(t.companies, columns, row, force, fails);
    match result
    case Done(c, u) => Tally(next, t.created + (if c then 1 else 0), t.updated + (if u then 1 else 0))
    case Raised => t
  }

  /** One row never removes an ISIN and adds at most its own. */
  lemma SyncRowKeeps(cs: seq<Company>, columns: seq<string>, row: seq<Cell>, force: bool, fails: bool)
    requires UniqueIsins(cs)
    ensures UniqueIsins(SyncRow(cs, columns, row, force, fails).0)
    ensures Isins(cs) <= Isins(SyncRow(cs, columns, row, force, fails).0)
    ensures |SyncRow(cs, columns, row, force, fails).0| == |cs| + if SyncRow(cs, columns, row, force, fails).1 == Done(true, false) then 1 else 0
  {
    var (next, result) := SyncRow(cs, columns, row, force, fails);
    if IsCompanyRow(columns, row) && !SyncSkipped(columns, row) {
      var key := RowIsin(columns, row);
      match IsinIndex(cs, key)
      case Some(k) =>
        if force && !fails {
          var c := MergeNonEmpty(cs[k], CompanyData(columns, row));
          assert next == Upsert(cs, c);
        }
      case None =>
        if !fails {
          assert next == Upsert(cs, NewCompany(columns, row));
        }
    }
  }

  /**
   * Over a whole sheet the table grows by exactly the `created` counter, keeps
   * every ISIN it had, and stays free of duplicates; each row adds to at most
   * one counter.
   */
  lemma {:induction false} SyncRowsCounts(cs: seq<Company>, columns: seq<string>, rows: seq<seq<Cell>>, force: bool, failing: set<nat>)
    requires UniqueIsins(cs)
    ensures UniqueIsins(SyncRows(cs, columns, rows, force, failing).companies)
    ensures Isins(cs) <= Isins(SyncRows(cs, columns, rows, force, failing).companies)
    ensures |SyncRows(cs, columns, rows, force, failing).companies| == |cs| + SyncRows(cs, columns, rows, force, failing).created
    ensures SyncRows(cs, columns, rows, force, failing).created + SyncRows(cs, columns, rows, force, failing).updated <= |rows|
  {
    if rows != [] {
      var init := rows[..|rows| - 1];
      SyncRowsCounts(cs, columns, init, force, failing);
      var t := SyncRows(cs, columns, init, force, failing);
      SyncRowKeeps(t.companies, columns, rows[|rows| - 1], force, |rows| - 1 in failing);
    }
  }

  /**
   * Without `--force` no row ever counts as updated and no stored company is
   * overwritten: the table before the sync is a prefix of the table after it.
   */
  lemma {:induction false} NoForceNoUpdates(cs: seq<Company>, columns: seq<string>, rows: seq<seq<Cell>>, failing: set<nat>)
    ensures SyncRows(cs, columns, rows, false, failing).updated == 0
    ensures cs <= SyncRows(cs, columns, rows, false, failing).companies
  {
    if rows != [] {
      NoForceNoUpdates(cs, columns, rows[..|rows| - 1], failing);
    }
  }

  /**
   * `_process_company_row`. `fails` says the database rejects the write, so
   * the row raises with the table unchanged.
   */
  method ProcessCompanyRow(db: Database, columns: seq<string>, row: seq<Cell>, force: bool, fails: bool) returns (result: RowResult)
    requires db.Valid()
    modifies db`companies
    ensures db.Valid()
    ensures SyncSkipped(columns, row) ==> result == Done(false, false) && db.companies == old(db.companies)
    ensures !SyncSkipped(columns, row) && RowIsin(columns, row) !in Isins(old(db.companies)) ==>
              if fails then result == Raised && db.companies == old(db.companies)
              else result == Done(true, false) && db.companies == old(db.companies) + [NewCompany(columns, row)]
    ensures !SyncSkipped(columns, row) && RowIsin(columns, row) in Isins(old(db.companies)) && !force ==>
              result == Done(false, false) && db.companies == old(db.companies)
    ensures !SyncSkipped(columns, row) && RowIsin(columns, row) in Isins(old(db.companies)) && force ==>
              var k := IsinIndex(old(db.companies), RowIsin(columns, row)).value;
              if fails then result == Raised && db.companies == old(db.companies)
              else result == Done(false, true)
                   && db.companies == old(db.companies)[k := MergeNonEmpty(old(db.companies)[k], CompanyData(columns, row))]
    ensures IsCompanyRow(columns, row) ==> (db.companies, result) == SyncRow(old(db.companies), columns, row, force, fails)
  {
    var name := SafeGet(columns, row, "company_name");
    if !(name.Some? && CellTruthy(name.value)) {
      return Done(false, false);
    }
    var isin := SafeGet(columns, row, "isin");
    if !(isin.Some? && CellTruthy(isin.value)) {
      return Done(false, false);
    }
    var key := CellStr(isin.value);
    var data := CompanyData(columns, row);
    match IsinIndex(db.companies, key)
    case Some(k) =>
      if force {
        if fails {
          return Raised;
        }
        db.PutCompany(MergeNonEmpty(db.companies[k], data));
        result := Done(false, true);
      } else {
        result := Done(false, false);
      }
    case None =>
      if fails {
        return Raised;
      }
      db.PutCompany(Company(key, data, None, false));
      result := Done(true, false);
  }

  /** One iteration of the row loop of `handle`. */
  method SyncOne(db: Database, columns: seq<string>, row: seq<Cell>, force: bool, fails: bool, created: nat, updated: nat)
    returns (created': nat, updated': nat)
    requires db.Valid()
    modifies db`companies
    ensures db.Valid()
    ensures Tally(db.companies, created', updated') == Step(Tally(old(db.companies), created, updated), columns, row, force, fails)
  {
    created', updated' := created, updated;
    if IsCompanyRow(columns, row) {
      var result := ProcessCompanyRow(db, columns, row, force, fails);
      match result
      case Done(c, u) =>
        if c { created' := created' + 1; }
        if u { updated' := updated' + 1; }
      case Raised =>
    }
  }

  /** How `handle` ends. */
  datatype SyncOutcome = CommandError | Synced(companiesCreated: nat, companiesUpdated: nat, fundsCreated: nat, fundsUpdated: nat)

  /** The workbook at the command's path. */
  datatype SyncFile = NoFile | BadFile | Workbook(sheet: Sheet)

  /**
   * `handle`: a missing or unreadable workbook is a `CommandError`; otherwise
   * every company row is processed in order, a row that raises is skipped with
   * the counters untouched, and the fund counters stay 0 because no row is a
   * fund row.
   */
  method Handle(db: Database, source: SyncFile, force: bool, failing: set<nat>) returns (outcome: SyncOutcome)
    requires db.Valid()
    modifies db`companies
    ensures db.Valid()
    ensures !source.Workbook? ==> outcome == CommandError && db.companies == old(db.companies)
    ensures source.Workbook? ==>
              var t := SyncRows(old(db.companies), NormalizeColumns(source.sheet.columns), source.sheet.rows, force, failing);
              outcome == Synced(t.created, t.updated, 0, 0) && db.companies == t.companies
  {
    if !source.Workbook? {
      return CommandError;
    }
    var columns := NormalizeColumns(source.sheet.columns);
    var rows := source.sheet.rows;
    ghost var start := db.companies;
    var created, updated := 0, 0;
    for i := 0 to |rows|
      invariant db.Valid()
      invariant Tally(db.companies, created, updated) == SyncRows(start, columns, rows[..i], force, failing)
    {
      assert rows[..i + 1][..i] == rows[..i];
      created, updated := SyncOne(db, columns, rows[i], force, i in failing, created, updated);
    }
    assert rows[..|rows|] == rows;
    outcome := Synced(created, updated, 0, 0);
  }
}
