/**
 * The `load_excel_data` management command
 * (backend/api/management/commands/load_excel_data.py): every sheet row with
 * an ISIN and a company name is upserted into the `Company` table by ISIN,
 * together with the report file chosen for it.
 */
module LoadExcel {
  import opened Wrappers
  import opened Text
  import opened Catalog
  import opened Store
  import opened PdfMatching

  /** Every text column of `Company`. */
  const AllFields: set<Field> := {
    CompanyName, SrNo, BseSymbol, NseSymbol, Sector, Industry, EsgSector, MarketCap,
    EPillar, SPillar, GPillar, EsgPillar,
    PositiveScreen, NegativeScreen, ControversyRating, CompositeRating, EsgRating,
    Grade, EScore, SScore, GScore, EsgScore, Positive, Negative, Controversy, Composite
  }

  lemma AllFieldsComplete(f: Field)
    ensures f in AllFields
  {
  }

  /**
   * The sheet column each `Company` column is read from. The legacy columns
   * read the same sheet column as the column they mirror.
   */
  function SourceColumn(f: Field): string {
    match f
    case CompanyName => "Company Name"
    case SrNo => "Sr No."
    case BseSymbol => "BSE Symbol"
    case NseSymbol => "NSE Symbol"
    case Sector => "Sector"
    case Industry => "Industry"
    case EsgSector => "ESG Sector"
    case MarketCap => "Mcap"
    case EPillar | EScore => "E Pillar"
    case SPillar | SScore => "S Pillar"
    case GPillar | GScore => "G Pillar"
    case EsgPillar | EsgScore => "ESG Pillar"
    case PositiveScreen | Positive => "Positive Screen"
    case NegativeScreen | Negative => "Negative Screen"
    case ControversyRating | Controversy => "Controversy Rating"
    case CompositeRating | Composite => "Composite Rating"
    case EsgRating | Grade => "ESG Rating"
  }

  /** The new column a legacy column stands for. */
  function MirrorOf(f: Field): Option<Field> {
    match f
    case Grade => Some(EsgRating)
    case EScore => Some(EPillar)
    case SScore => Some(SPillar)
    case GScore => Some(GPillar)
    case EsgScore => Some(EsgPillar)
    case Positive => Some(PositiveScreen)
    case Negative => Some(NegativeScreen)
    case Controversy => Some(ControversyRating)
    case Composite => Some(CompositeRating)
    case _ => None
  }

  /** `df.columns.str.strip()`. */
  function StripColumns(columns: seq<string>): (r: seq<string>)
    ensures |r| == |columns|
    ensures forall i :: 0 <= i < |columns| ==> r[i] == Strip(columns[i])
  {
    seq(|columns|, i requires 0 <= i < |columns| => Strip(columns[i]))
  }

  /** `str(row.get(key, '')).strip() if pd.notna(row.get(key)) else ''`. */
  function CellText(columns: seq<string>, row: seq<Cell>, key: string): (r: string)
    ensures RowGet(columns, row, key).None? ==> r == ""
    ensures RowGet(columns, row, key) == Some(NaN) ==> r == ""
    ensures r != [] ==> !IsSpace(r[0]) && !IsSpace(r[|r| - 1])
  {
    match RowGet(columns, row, key)
    case Some(c) => if c.NaN? then "" else Strip(CellStr(c))
    case None => ""
  }

  /** The text columns written for a row: every column, blank when the cell is missing. */
  function RowText(columns: seq<string>, row: seq<Cell>): (r: map<Field, string>)
    ensures forall f :: f in r <==> f in AllFields
  {
    map f | f in AllFields :: CellText(columns, row, SourceColumn(f))
  }

  /** A row is skipped when its ISIN or its company name is blank. */
  predicate Skipped(columns: seq<string>, row: seq<Cell>) {
    CellText(columns, row, "ISIN") == "" || CellText(columns, row, "Company Name") == ""
  }

  /** The record `update_or_create` stores for a row that is not skipped. */
  function Record(columns: seq<string>, row: seq<Cell>, m: Mapping): Company {
    var file := Chosen(Upper(CellText(columns, row, "Company Name")), m);
    Company(CellText(columns, row, "ISIN"), RowText(columns, row), file, file.Some?)
  }

  /** The company table after one row. */
  function LoadRow(cs: seq<Company>, columns: seq<string>, row: seq<Cell>, m: Mapping): seq<Company> {
    if Skipped(columns, row) then cs else Upsert(cs, Record(columns, row, m))
  }

  /** The company table after the given rows, in sheet order. */
  function LoadRows(cs: seq<Company>, columns: seq<string>, rows: seq<seq<Cell>>, m: Mapping): seq<Company>
    decreases |rows|
  {
    if rows == [] then cs
    else LoadRow(LoadRows(cs, columns, rows[..|rows| - 1], m), columns, rows[|rows| - 1], m)
  }

  /** `companies_loaded`: rows that were not skipped, whether created or updated. */
  function LoadedCount(columns: seq<string>, rows: seq<seq<Cell>>): nat
    decreases |rows|
  {
    if rows == [] then 0
    else LoadedCount(columns, rows[..|rows| - 1]) + if Skipped(columns, rows[|rows| - 1]) then 0 else 1
  }

  /** The ISINs of the rows that are not skipped. */
  function RowIsins(columns: seq<string>, rows: seq<seq<Cell>>): set<string>
    decreases |rows|
  {
    if rows == [] then {}
    else RowIsins(columns, rows[..|rows| - 1])
         + if Skipped(columns, rows[|rows| - 1]) then {} else {CellText(columns, rows[|rows| - 1], "ISIN")}
  }

  /** A stored record's legacy columns equal the columns they mirror. */
  lemma LegacyMirrors(columns: seq<string>, row: seq<Cell>, f: Field)
    requires MirrorOf(f).Some?
    ensures f in RowText(columns, row) && MirrorOf(f).value in RowText(columns, row)
    ensures RowText(columns, row)[f] == RowText(columns, row)[MirrorOf(f).value]
  {
    var g := MirrorOf(f).value;
    AllFieldsComplete(f);
    AllFieldsComplete(g);
    MirrorReadsSameColumn(f);
  }

  /** A legacy column and the column it mirrors are read from the same sheet column. */
  lemma MirrorReadsSameColumn(f: Field)
    requires MirrorOf(f).Some?
    ensures SourceColumn(f) == SourceColumn(MirrorOf(f).value)
  {
    match f
    case Grade =>
    case EScore =>
    case SScore =>
    case GScore =>
    case EsgScore =>
    case Positive =>
    case Negative =>
    case Controversy =>
    case Composite =>
    case _ => assert false;
  }

  /**
   * A stored record has a report exactly when a file was chosen, which is
   * exactly when its upper-cased name is a key of the mapping or matches one.
   */
  lemma HasPdfIffMatched(columns: seq<string>, row: seq<Cell>, m: Mapping)
    ensures Record(columns, row, m).hasPdfReport <==> Record(columns, row, m).pdfFilename.Some?
    ensures Record(columns, row, m).hasPdfReport <==>
              exists i :: 0 <= i < |m| && (m[i].0 == Upper(CellText(columns, row, "Company Name"))
                                           || Matches(Upper(CellText(columns, row, "Company Name")), m[i].0))
  {
    ChosenIffSomeMatch(Upper(CellText(columns, row, "Company Name")), m);
  }

  /** Loading adds exactly the ISINs of the rows not skipped and never duplicates one. */
  lemma {:induction false} LoadRowsIsins(cs: seq<Company>, columns: seq<string>, rows: seq<seq<Cell>>, m: Mapping)
    ensures Isins(LoadRows(cs, columns, rows, m)) == Isins(cs) + RowIsins(columns, rows)
    ensures UniqueIsins(cs) ==> UniqueIsins(LoadRows(cs, columns, rows, m))
  {
    if rows != [] {
      LoadRowsIsins(cs, columns, rows[..|rows| - 1], m);
    }
  }

  /** In a table with unique ISINs there is one row per ISIN. */
  lemma {:induction false} UniqueIsinsCount(cs: seq<Company>)
    requires UniqueIsins(cs)
    ensures |Isins(cs)| == |cs|
  {
    if cs != [] {
      UniqueIsinsTail(cs);
      UniqueIsinsCount(cs[1..]);
    }
  }

  /** Dropping the first row keeps the ISINs unique and removes exactly its ISIN. */
  lemma UniqueIsinsTail(cs: seq<Company>)
    requires UniqueIsins(cs) && cs != []
    ensures UniqueIsins(cs[1..])
    ensures Isins(cs) == Isins(cs[1..]) + {cs[0].isin} && cs[0].isin !in Isins(cs[1..])
  {
    var rest := cs[1..];
    forall i, j | 0 <= i < |rest| && 0 <= j < |rest| && rest[i].isin == rest[j].isin ensures i == j {
      assert cs[i + 1] == rest[i] && cs[j + 1] == rest[j];
    }
    assert cs == [cs[0]] + rest;
    forall c | c in rest ensures c.isin != cs[0].isin {
      var i :| 0 <= i < |rest| && rest[i] == c;
      assert cs[i + 1] == c;
    }
  }

  /** Loading the same sheet twice leaves as many companies as loading it once. */
  lemma ReloadAddsNoRows(cs: seq<Company>, columns: seq<string>, rows: seq<seq<Cell>>, m: Mapping)
    requires UniqueIsins(cs)
    ensures |LoadRows(LoadRows(cs, columns, rows, m), columns, rows, m)| == |LoadRows(cs, columns, rows, m)|
  {
    var once := LoadRows(cs, columns, rows, m);
    var twice := LoadRows(once, columns, rows, m);
    LoadRowsIsins(cs, columns, rows, m);
    LoadRowsIsins(once, columns, rows, m);
    assert Isins(twice) == Isins(once);
    UniqueIsinsCount(once);
    UniqueIsinsCount(twice);
  }

  /** Every row not skipped is counted; the count never exceeds the number of rows. */
  lemma {:induction false} LoadedCountBound(columns: seq<string>, rows: seq<seq<Cell>>)
    ensures LoadedCount(columns, rows) <= |rows|
    ensures (forall i :: 0 <= i < |rows| ==> !Skipped(columns, rows[i])) ==> LoadedCount(columns, rows) == |rows|
    ensures (forall i :: 0 <= i < |rows| ==> Skipped(columns, rows[i])) ==> LoadedCount(columns, rows) == 0
  {
    if rows != [] {
      var init := rows[..|rows| - 1];
      assert forall i :: 0 <= i < |init| ==> init[i] == rows[i];
      LoadedCountBound(columns, init);
    }
  }

  /**
   * `load_companies_data`: the row loop over the sheet, upserting each row that
   * has an ISIN and a name and counting it.
   */
  method LoadCompaniesData(db: Database, sheet: Sheet, m: Mapping) returns (loaded: nat)
    requires db.Valid()
    modifies db`companies
    ensures db.Valid()
    ensures db.companies == LoadRows(old(db.companies), StripColumns(sheet.columns), sheet.rows, m)
    ensures loaded == LoadedCount(StripColumns(sheet.columns), sheet.rows)
  {
    var columns := StripColumns(sheet.columns);
    var rows := sheet.rows;
    ghost var start := db.companies;
    loaded := 0;
    for i := 0 to |rows|
      invariant db.Valid()
      invariant db.companies == LoadRows(start, columns, rows[..i], m)
      invariant loaded == LoadedCount(columns, rows[..i])
    {
      LoadRowsStep(start, columns, rows, m, i);
      loaded := LoadOne(db, columns, rows[i], m, loaded);
    }
    assert rows[..|rows|] == rows;
  }

  /** `LoadRows` and `LoadedCount` over one more row. */
  lemma LoadRowsStep(cs: seq<Company>, columns: seq<string>, rows: seq<seq<Cell>>, m: Mapping, i: nat)
    requires i < |rows|
    ensures LoadRows(cs, columns, rows[..i + 1], m) == LoadRow(LoadRows(cs, columns, rows[..i], m), columns, rows[i], m)
    ensures LoadedCount(columns, rows[..i + 1]) == LoadedCount(columns, rows[..i]) + if Skipped(columns, rows[i]) then 0 else 1
  {
    assert rows[..i + 1][..i] == rows[..i];
  }

  /** One iteration of the row loop: skip the row, or upsert its record and count it. */
  method LoadOne(db: Database, columns: seq<string>, row: seq<Cell>, m: Mapping, loaded: nat) returns (loaded': nat)
    requires db.Valid()
    modifies db`companies
    ensures db.Valid()
    ensures db.companies == LoadRow(old(db.companies), columns, row, m)
    ensures loaded' == loaded + if Skipped(columns, row) then 0 else 1
  {
    loaded' := loaded;
    var isin := CellText(columns, row, "ISIN");
    var name := CellText(columns, row, "Company Name");
    if isin != "" && name != "" {
      var file := ChoosePdf(Upper(name), m);
      db.PutCompany(Company(isin, RowText(columns, row), file, file.Some?));
      loaded' := loaded' + 1;
    }
  }

  /** What the workbook path holds. */
  datatype Workbook = Missing | Unreadable | Readable(sheet: Sheet)

  /** How `handle` ends: early return, success with its counts, or a re-raised error. */
  datatype LoadOutcome = FileNotFound | Loaded(companies: nat, funds: nat) | Raised

  /**
   * `handle`: a missing workbook ends the command before anything happens;
   * otherwise the report mapping is built from the directory listing, `--force`
   * deletes every company (and with them every ledger row), and the sheet is
   * loaded. An unreadable workbook raises after the deletion.
   */
  method Handle(db: Database, book: Workbook, listing: Option<seq<string>>, force: bool) returns (outcome: LoadOutcome)
    requires db.Valid()
    modifies db`companies, db`assignments
    ensures db.Valid()
    ensures book.Missing? ==> outcome == FileNotFound && db.companies == old(db.companies) && db.assignments == old(db.assignments)
    ensures book.Unreadable? ==> outcome == Raised
    ensures !book.Missing? && force ==> db.assignments == []
    ensures !book.Missing? && !force ==> db.assignments == old(db.assignments)
    ensures book.Unreadable? ==> db.companies == if force then [] else old(db.companies)
    ensures book.Readable? ==>
              var m := if listing.Some? then MappingOf(listing.value) else [];
              var columns := StripColumns(book.sheet.columns);
              outcome == Loaded(LoadedCount(columns, book.sheet.rows), 0)
              && db.companies == LoadRows(if force then [] else old(db.companies), columns, book.sheet.rows, m)
  {
    if book.Missing? {
      return FileNotFound;
    }
    var m := GetPdfFilenameMapping(listing);
    if force {
      db.DeleteAllCompanies();
    }
    if book.Unreadable? {
      return Raised;
    }
    var companies := LoadCompaniesData(db, book.sheet, m);
    outcome := Loaded(companies, 0);
  }
}
