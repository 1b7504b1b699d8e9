/**
 * The `Company` table of backend/api/models.py and the Excel sheet the
 * management commands read it from.
 */
module Catalog {
  import opened Wrappers
  import opened Text

  /**
   * The nullable text columns of `Company`: everything except the ISIN
   * primary key, the two PDF columns and the timestamps. The last nine are the
   * legacy columns kept for backward compatibility.
   */
  datatype Field =
    | CompanyName | SrNo | BseSymbol | NseSymbol | Sector | Industry | EsgSector | MarketCap
    | EPillar | SPillar | GPillar | EsgPillar
    | PositiveScreen | NegativeScreen | ControversyRating | CompositeRating | EsgRating
    | Grade | EScore | SScore | GScore | EsgScore | Positive | Negative | Controversy | Composite

  /**
   * A `Company` row. `text` holds the text columns; a column missing from the
   * map is NULL.
   */
  datatype Company = Company(
    isin: string,
    text: map<Field, string>,
    pdfFilename: Option<string>,
    hasPdfReport: bool)
  {
    /** The value of a text column, `None` for NULL. */
    function Column(f: Field): Option<string> {
      if f in text then Some(text[f]) else None
    }

    /** `company.company_name`. */
    function Name(): Option<string> {
      Column(CompanyName)
    }
  }

  /** Python truthiness of a nullable string: present and non-empty. */
  predicate Truthy(s: Option<string>) {
    s.Some? && s.value != ""
  }

  /** The `isin` primary key is unique. */
  predicate UniqueIsins(cs: seq<Company>) {
    forall i, j :: 0 <= i < |cs| && 0 <= j < |cs| && cs[i].isin == cs[j].isin ==> i == j
  }

  /** The ISINs present in the table. */
  function Isins(cs: seq<Company>): set<string> {
    set c | c in cs :: c.isin
  }

  /** `Company.objects.get(isin=isin)`: the position of the row, if any. */
  function IsinIndex(cs: seq<Company>, isin: string): (r: Option<nat>)
    ensures r.Some? ==> r.value < |cs| && cs[r.value].isin == isin
    ensures r.None? <==> isin !in Isins(cs)
  {
    if cs == [] then None
    else if cs[0].isin == isin then Some(0)
    else match IsinIndex(cs[1..], isin)
      case Some(k) => Some(k + 1)
      case None =>
        assert forall c :: c in cs ==> c == cs[0] || c in cs[1..];
        None
  }

  /**
   * `update_or_create` keyed by ISIN: a row with the same ISIN is replaced in
   * place, otherwise the record is appended.
   */
  function Upsert(cs: seq<Company>, c: Company): (r: seq<Company>)
    ensures Isins(r) == Isins(cs) + {c.isin}
    ensures UniqueIsins(cs) ==> UniqueIsins(r)
    ensures c in r
    ensures |r| == if c.isin in Isins(cs) then |cs| else |cs| + 1
    ensures forall i :: 0 <= i < |cs| && cs[i].isin != c.isin ==> r[i] == cs[i]
  {
    match IsinIndex(cs, c.isin)
    case Some(k) =>
      var r := cs[k := c];
      assert r[k] == c;
      assert Isins(r) == Isins(cs) by {
        forall x | x in Isins(r) ensures x in Isins(cs) {
          var i :| 0 <= i < |r| && r[i].isin == x;
          if i == k { assert cs[k].isin == x; } else { assert cs[i] == r[i]; }
        }
        forall x | x in Isins(cs) ensures x in Isins(r) {
          var i :| 0 <= i < |cs| && cs[i].isin == x;
          if i == k { assert r[k].isin == x; } else { assert cs[i] == r[i]; }
        }
      }
      r
    case None => cs + [c]
  }

  /** A cell as pandas reads it: NaN, a string, or a number with its `str()` form. */
  datatype Cell = NaN | Str(s: string) | Num(repr: string, isZero: bool)

  /** `str(value)` for a cell. */
  function CellStr(c: Cell): string {
    match c
    case NaN => "nan"
    case Str(s) => s
    case Num(repr, _) => repr
  }

  /** Python truthiness of a cell value: NaN is truthy, "" and 0 are not. */
  predicate CellTruthy(c: Cell) {
    match c
    case NaN => true
    case Str(s) => s != ""
    case Num(_, z) => !z
  }

  /** A sheet: a header row of column names and the data rows under it. */
  datatype Sheet = Sheet(columns: seq<string>, rows: seq<seq<Cell>>)

  /** The first column with this name. */
  function ColumnIndex(columns: seq<string>, key: string): (r: Option<nat>)
    ensures r.Some? ==> r.value < |columns| && columns[r.value] == key
    ensures r.None? <==> key !in columns
  {
    if columns == [] then None
    else if columns[0] == key then Some(0)
    else match ColumnIndex(columns[1..], key)
      case Some(k) => Some(k + 1)
      case None => None
  }

  /** `row.get(key)`: `None` when the sheet has no such column. */
  function RowGet(columns: seq<string>, row: seq<Cell>, key: string): (r: Option<Cell>)
    ensures r.None? <==> key !in columns
  {
    match ColumnIndex(columns, key)
    case Some(i) => Some(if i < |row| then row[i] else NaN)
    case None => None
  }

  /** `pd.notna(row.get(key))`. */
  predicate NotNa(columns: seq<string>, row: seq<Cell>, key: string) {
    var v := RowGet(columns, row, key);
    v.Some? && !v.value.NaN?
  }
}
