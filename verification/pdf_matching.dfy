/**
 * How the `load_excel_data` command pairs companies with report files
 * (backend/api/management/commands/load_excel_data.py): the filename-to-key
 * mapping, the stop-word `clean_name`, the fuzzy `companies_match`, and the
 * exact-then-partial choice of a file for a company.
 */
module PdfMatching {
  import opened Wrappers
  import opened Text

  /** A file `glob('*.pdf')` returns: a visible name ending in ".pdf". */
  predicate IsPdfName(f: string) {
    EndsWith(f, ".pdf") && f[0] != '.'
  }

  /** "Bajaj_Finance_Limited.pdf" becomes "BAJAJ FINANCE LIMITED". */
  function PdfKey(filename: string): string {
    Upper(ReplaceAll(ReplaceAll(filename, ".pdf", ""), "_", " "))
  }

  /** A Python dict as an association list in insertion order. */
  type Mapping = seq<(string, string)>

  predicate UniqueKeys(m: Mapping) {
    forall i, j :: 0 <= i < |m| && 0 <= j < |m| && m[i].0 == m[j].0 ==> i == j
  }

  /** The position of key `k`, if present (the first one, though keys are unique). */
  function KeyIndex(m: Mapping, k: string): (r: Option<nat>)
    ensures r.Some? ==> r.value < |m| && m[r.value].0 == k && forall j :: 0 <= j < r.value ==> m[j].0 != k
    ensures r.None? ==> forall j :: 0 <= j < |m| ==> m[j].0 != k
  {
    if m == [] then None
    else if m[0].0 == k then Some(0)
    else match KeyIndex(m[1..], k)
      case Some(i) => Some(i + 1)
      case None => None
  }

  /** `m.get(k)`. */
  function Lookup(m: Mapping, k: string): Option<string> {
    match KeyIndex(m, k)
    case Some(i) => Some(m[i].1)
    case None => None
  }

  /**
   * `m[k] = v`: an existing key keeps its position and takes the new value,
   * a new key goes to the end.
   */
  function Put(m: Mapping, k: string, v: string): (r: Mapping)
    ensures |r| == if KeyIndex(m, k).Some? then |m| else |m| + 1
    ensures forall i :: 0 <= i < |m| ==> r[i].0 == m[i].0
  {
    match KeyIndex(m, k)
    case Some(i) => m[i := (k, v)]
    case None => m + [(k, v)]
  }

  /** After `m[k] = v`, `k` reads `v` and every other key reads what it read before. */
  lemma PutLookup(m: Mapping, k: string, v: string, k': string)
    ensures Lookup(Put(m, k, v), k') == if k' == k then Some(v) else Lookup(m, k')
  {
    var r := Put(m, k, v);
    match KeyIndex(m, k') {
      case Some(i) =>
        assert KeyIndex(r, k') == Some(i);
      case None =>
        forall j | 0 <= j < |m| ensures r[j].0 != k' {
          assert r[j].0 == m[j].0;
        }
        if k' == k {
          assert r == m + [(k, v)];
          assert r[|m|].0 == k';
          assert KeyIndex(r, k') == Some(|m|);
        } else if KeyIndex(m, k).None? {
          assert r[|m|] == (k, v);
        }
    }
  }

  /** Assigning to a dict keeps its keys distinct. */
  lemma PutUnique(m: Mapping, k: string, v: string)
    requires UniqueKeys(m)
    ensures UniqueKeys(Put(m, k, v))
  {
  }

  /** The mapping built from a directory listing, file by file. */
  function MappingOf(files: seq<string>): Mapping {
    if files == [] then []
    else
      var m := MappingOf(files[..|files| - 1]);
      var f := files[|files| - 1];
      if IsPdfName(f) then Put(m, PdfKey(f), f) else m
  }

  /** Reference reading: the last listed PDF whose key is `k`. */
  function LastFileWithKey(files: seq<string>, k: string): Option<string> {
    if files == [] then None
    else
      var f := files[|files| - 1];
      if IsPdfName(f) && PdfKey(f) == k then Some(f) else LastFileWithKey(files[..|files| - 1], k)
  }

  /** Each key maps to the last listed file with that key: later files overwrite earlier ones. */
  lemma {:induction false} MappingOfLookup(files: seq<string>, k: string)
    ensures Lookup(MappingOf(files), k) == LastFileWithKey(files, k)
    decreases |files|
  {
    if files != [] {
      var f := files[|files| - 1];
      MappingOfLookup(files[..|files| - 1], k);
      if IsPdfName(f) {
        PutLookup(MappingOf(files[..|files| - 1]), PdfKey(f), f, k);
      }
    }
  }

  /** The mapping is a dict: no key twice. */
  lemma {:induction false} MappingOfUnique(files: seq<string>)
    ensures UniqueKeys(MappingOf(files))
    decreases |files|
  {
    if files != [] {
      var f := files[|files| - 1];
      MappingOfUnique(files[..|files| - 1]);
      if IsPdfName(f) {
        PutUnique(MappingOf(files[..|files| - 1]), PdfKey(f), f);
      }
    }
  }

  /**
   * `get_pdf_filename_mapping`. `listing` is the content of the report
   * directory, `None` when the directory does not exist.
   */
  method GetPdfFilenameMapping(listing: Option<seq<string>>) returns (m: Mapping)
    ensures listing.None? ==> m == []
    ensures listing.Some? ==> m == MappingOf(listing.value)
  {
    if listing.None? {
      return [];
    }
    var files := listing.value;
    m := [];
    for i := 0 to |files|
      invariant m == MappingOf(files[..i])
    {
      var f := files[i];
      assert files[..i + 1][..i] == files[..i];
      if IsPdfName(f) {
        m := Put(m, PdfKey(f), f);
      }
    }
    assert files[..|files|] == files;
  }

  /** The words `clean_name` removes, in the order it removes them. */
  const StopWords: seq<string> := ["LIMITED", "LTD", "PRIVATE", "PVT", "COMPANY", "CO", "CORPORATION", "CORP", "INC"]

  /** One round of `clean_name`: " W", then "W ", then every bare "W". */
  function Scrub(name: string, w: string): string
    requires w != []
  {
    ReplaceAll(ReplaceAll(ReplaceAll(name, " " + w, ""), w + " ", ""), w, "")
  }

  /** The first `n` rounds of `clean_name`. */
  function ScrubUpTo(name: string, n: nat): string
    requires n <= |StopWords|
  {
    if n == 0 then name
    else
      assert StopWords[n - 1] in StopWords;
      Scrub(ScrubUpTo(name, n - 1), StopWords[n - 1])
  }

  /** What `clean_name` returns. */
  function Cleaned(name: string): string {
    Strip(ScrubUpTo(Strip(Upper(name)), |StopWords|))
  }

  /** A round never lengthens the name. */
  lemma ScrubNeverGrows(name: string, w: string)
    requires w != []
    ensures |Scrub(name, w)| <= |name|
  {
    RemoveNeverGrows(name, " " + w);
    RemoveNeverGrows(ReplaceAll(name, " " + w, ""), w + " ");
    RemoveNeverGrows(ReplaceAll(ReplaceAll(name, " " + w, ""), w + " ", ""), w);
  }

  /** A stop word still present at its round is removed even from inside a longer word. */
  lemma ScrubRemovesInside(name: string, w: string)
    requires w != []
    requires Contains(ReplaceAll(ReplaceAll(name, " " + w, ""), w + " ", ""), w)
    ensures |Scrub(name, w)| < |name|
  {
    RemoveNeverGrows(name, " " + w);
    RemoveNeverGrows(ReplaceAll(name, " " + w, ""), w + " ");
    RemoveShortens(ReplaceAll(ReplaceAll(name, " " + w, ""), w + " ", ""), w);
  }

  /** Cleaning never lengthens a name. */
  lemma {:induction false} ScrubUpToNeverGrows(name: string, n: nat)
    requires n <= |StopWords|
    ensures |ScrubUpTo(name, n)| <= |name|
  {
    if n > 0 {
      ScrubUpToNeverGrows(name, n - 1);
      assert StopWords[n - 1] in StopWords;
      ScrubNeverGrows(ScrubUpTo(name, n - 1), StopWords[n - 1]);
    }
  }

  lemma CleanedNeverGrows(name: string)
    ensures |Cleaned(name)| <= |name|
  {
    ScrubUpToNeverGrows(Strip(Upper(name)), |StopWords|);
  }

  /**
   * `clean_name`: upper-case and strip, remove each stop word in turn, strip
   * again.
   */
  method CleanName(name: string) returns (r: string)
    ensures r == Cleaned(name)
  {
    var cur := Strip(Upper(name));
    for i := 0 to |StopWords|
      invariant cur == ScrubUpTo(Strip(Upper(name)), i)
    {
      var w := StopWords[i];
      assert w in StopWords;
      cur := ReplaceAll(ReplaceAll(ReplaceAll(cur, " " + w, ""), w + " ", ""), w, "");
    }
    r := Strip(cur);
  }

  /** `companies_match`: one cleaned name occurs in the other. */
  predicate Matches(name1: string, name2: string) {
    var c1 := Cleaned(name1);
    var c2 := Cleaned(name2);
    Contains(c2, c1) || Contains(c1, c2) || c1 == c2
  }

  method CompaniesMatch(name1: string, name2: string) returns (b: bool)
    ensures b == Matches(name1, name2)
  {
    var c1 := CleanName(name1);
    var c2 := CleanName(name2);
    b := Contains(c2, c1) || Contains(c1, c2) || c1 == c2;
  }

  lemma MatchesSymmetric(name1: string, name2: string)
    ensures Matches(name1, name2) == Matches(name2, name1)
  {
  }

  lemma MatchesReflexive(name: string)
    ensures Matches(name, name)
  {
    ContainsTrivial(Cleaned(name));
  }

  /** A name made only of stop words cleans to "" and so matches every name. */
  lemma EmptyCleanMatchesAll(name1: string, name2: string)
    requires Cleaned(name1) == [] || Cleaned(name2) == []
    ensures Matches(name1, name2)
  {
    ContainsTrivial(Cleaned(name1));
    ContainsTrivial(Cleaned(name2));
  }

  /** The equality test is implied by the containment tests. */
  lemma MatchesIsContainment(name1: string, name2: string)
    ensures Matches(name1, name2) <==> Contains(Cleaned(name2), Cleaned(name1)) || Contains(Cleaned(name1), Cleaned(name2))
  {
    ContainsTrivial(Cleaned(name1));
  }

  /** The position of the first entry, in mapping order, whose key satisfies `hit`. */
  function FirstWhere(m: Mapping, hit: string -> bool): (r: Option<nat>)
    ensures r.Some? ==> r.value < |m| && hit(m[r.value].0) && forall j :: 0 <= j < r.value ==> !hit(m[j].0)
    ensures r.None? ==> forall j :: 0 <= j < |m| ==> !hit(m[j].0)
  {
    if m == [] then None
    else if hit(m[0].0) then Some(0)
    else match FirstWhere(m[1..], hit)
      case Some(i) => Some(i + 1)
      case None => None
  }

  /** The file of the first entry whose key matches `name`. */
  function FirstPartial(name: string, m: Mapping): Option<string> {
    match FirstWhere(m, key => Matches(name, key))
    case Some(i) => Some(m[i].1)
    case None => None
  }

  /** The file chosen for a company whose upper-cased name is `nameUpper`. */
  function Chosen(nameUpper: string, m: Mapping): Option<string> {
    if Lookup(m, nameUpper).Some? then Lookup(m, nameUpper) else FirstPartial(nameUpper, m)
  }

  /**
   * The partial-match loop of `load_companies_data`: walks the mapping in
   * order and stops at the first key that `hit` accepts.
   */
  method FirstMatching(m: Mapping, hit: string -> bool) returns (r: Option<nat>)
    ensures r == FirstWhere(m, hit)
  {
    var i := 0;
    while i < |m|
      invariant 0 <= i <= |m|
      invariant forall j :: 0 <= j < i ==> !hit(m[j].0)
    {
      if hit(m[i].0) {
        return Some(i);
      }
      i := i + 1;
    }
    return None;
  }

  /** The file of the first entry whose key `companies_match`es the name. */
  method PartialMatch(nameUpper: string, m: Mapping) returns (file: Option<string>)
    ensures file == FirstPartial(nameUpper, m)
  {
    var r := FirstMatching(m, key => Matches(nameUpper, key));
    file := match r case Some(i) => Some(m[i].1) case None => None;
  }

  /**
   * The selection in `load_companies_data`: the exact key wins; otherwise the
   * first partial match in mapping order; otherwise no file.
   */
  method ChoosePdf(nameUpper: string, m: Mapping) returns (file: Option<string>)
    ensures Lookup(m, nameUpper).Some? ==> file == Lookup(m, nameUpper)
    ensures Lookup(m, nameUpper).None? ==> file == FirstPartial(nameUpper, m)
  {
    file := Lookup(m, nameUpper);
    if file.None? {
      file := PartialMatch(nameUpper, m);
    }
  }

  /** A file is chosen exactly when the name is a key or matches some key. */
  lemma ChosenIffSomeMatch(nameUpper: string, m: Mapping)
    ensures Chosen(nameUpper, m).Some? <==> exists i :: 0 <= i < |m| && (m[i].0 == nameUpper || Matches(nameUpper, m[i].0))
  {
    if KeyIndex(m, nameUpper).Some? {
      assert m[KeyIndex(m, nameUpper).value].0 == nameUpper;
    } else if FirstWhere(m, key => Matches(nameUpper, key)).Some? {
      assert Matches(nameUpper, m[FirstWhere(m, key => Matches(nameUpper, key)).value].0);
    }
  }

  /** A chosen file is always one of the listed files. */
  lemma ChosenIsListed(nameUpper: string, m: Mapping)
    ensures Chosen(nameUpper, m).Some? ==> exists i :: 0 <= i < |m| && m[i].1 == Chosen(nameUpper, m).value
  {
    if KeyIndex(m, nameUpper).Some? {
      var i := KeyIndex(m, nameUpper).value;
      assert m[i].1 == Chosen(nameUpper, m).value;
    } else if FirstWhere(m, key => Matches(nameUpper, key)).Some? {
      var i := FirstWhere(m, key => Matches(nameUpper, key)).value;
      assert m[i].1 == Chosen(nameUpper, m).value;
    }
  }
}
