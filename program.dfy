/** `main` after the file names have been read from the command line and
    the files have been read: the proceedings tables of all the files
    merged into one, then the articles of every file translated against
    it, in the order of the files. */
module Program {
  import opened BibItem
  import opened Crossref
  import opened Translate

  /** The lines of each file named on the command line, in order. */
  type Files = seq<seq<string>>

  /** The proceedings table, or the `KeyError`, of each file. */
  function TablesOf(files: Files): (r: seq<Result<CrossrefTable>>)
    ensures |r| == |files|
  {
    seq(|files|, i requires 0 <= i < |files| => CrossrefsOf(files[i]))
  }

  /** The parsed entries of each file. */
  function ItemsOf(files: Files): (r: seq<seq<FieldMap>>)
    ensures |r| == |files|
  {
    seq(|files|, i requires 0 <= i < |files| => BibItems(files[i]))
  }

  /** The translated entries of each file. */
  function PartsOf(files: Files, crossref: CrossrefTable): (r: seq<seq<FieldMap>>)
    ensures |r| == |files|
  {
    seq(|files|, i requires 0 <= i < |files| => TranslateOf(files[i], crossref))
  }

  /** The first loop of `main` after `n` files: the tables merged with
      `|`, a later file's record winning; a file whose table raises
      `KeyError` ends the program with it. */
  function UnionPrefix(tables: seq<Result<CrossrefTable>>, n: nat): Result<CrossrefTable>
    requires n <= |tables|
  {
    if n == 0 then Ok(map[])
    else
      match UnionPrefix(tables, n - 1)
      case KeyError(k) => KeyError(k)
      case Ok(m) =>
        match tables[n - 1]
        case KeyError(k) => KeyError(k)
        case Ok(c) => Ok(m + c)
  }

  /** The proceedings table of all the files. */
  function Union(files: Files): Result<CrossrefTable> {
    UnionPrefix(TablesOf(files), |files|)
  }

  /** The entries of the first `n` lists, one after the other: the second
      loop of `main` after `n` files. */
  function Concat(items: seq<seq<FieldMap>>, n: nat): seq<FieldMap>
    requires n <= |items|
  {
    if n == 0 then [] else Concat(items, n - 1) + items[n - 1]
  }

  /** The entries that `main` hands to `print_html`, or the `KeyError` that
      stops it first. */
  function Listing(files: Files): Result<seq<FieldMap>> {
    match Union(files)
    case KeyError(k) => KeyError(k)
    case Ok(crossref) => Ok(Concat(PartsOf(files, crossref), |files|))
  }

  // ----- The two loops of `main` -----

  /** `f` is `extract_crossref`. The loops below take the function each
      file is given to as a ghost value tied to the parser only here, so
      that their proofs treat one file's result as a single value and do
      not unfold the parser for every file they mention. */
  ghost predicate IsExtractCrossref(f: seq<string> -> Result<CrossrefTable>) {
    forall d {:trigger CrossrefsOf(d)} :: f(d) == CrossrefsOf(d)
  }

  /** `g` is `translate_bibtex_to_dictionary` against `crossref`. */
  ghost predicate IsTranslate(g: seq<string> -> seq<FieldMap>, crossref: CrossrefTable) {
    forall d {:trigger TranslateOf(d, crossref)} :: g(d) == TranslateOf(d, crossref)
  }

  /** The first loop: every file's proceedings table merged in. */
  method CollectCrossref(files: Files) returns (r: Result<CrossrefTable>)
    ensures r == Union(files)
  {
    r := MergeTables(files, TablesOf(files), CrossrefsOf);
  }

  /** The first loop, with `tables` naming the tables the files give;
      the first `KeyError` ends it. */
  method MergeTables(files: Files, ghost tables: seq<Result<CrossrefTable>>, ghost f: seq<string> -> Result<CrossrefTable>)
    returns (r: Result<CrossrefTable>)
    requires IsExtractCrossref(f)
    requires |tables| == |files| && forall j :: 0 <= j < |files| ==> tables[j] == f(files[j])
    ensures r == UnionPrefix(tables, |tables|)
  {
    var crossref: CrossrefTable := map[];
    var i := 0;
    while i < |files|
      invariant 0 <= i <= |files|
      invariant UnionPrefix(tables, i) == Ok(crossref)
    {
      var c := FileTable(files[i], f);
      UnionStep(tables, i, crossref, c);
      if c.KeyError? {
        UnionStopsAt(tables, i + 1, |tables|);
        return KeyError(c.key);
      }
      crossref := crossref + c.value;
      i := i + 1;
    }
    r := Ok(crossref);
  }

  /** The second loop: every file's translated entries appended. */
  method TranslateAll(files: Files, crossref: CrossrefTable) returns (dictlist: seq<FieldMap>)
    ensures dictlist == Concat(PartsOf(files, crossref), |files|)
  {
    dictlist := AppendListings(files, PartsOf(files, crossref), crossref, d => TranslateOf(d, crossref));
  }

  /** The second loop, with `parts` naming the translated entries of each
      file. */
  method AppendListings(files: Files, ghost parts: seq<seq<FieldMap>>, crossref: CrossrefTable, ghost g: seq<string> -> seq<FieldMap>)
    returns (dictlist: seq<FieldMap>)
    requires IsTranslate(g, crossref)
    requires |parts| == |files| && forall j :: 0 <= j < |files| ==> parts[j] == g(files[j])
    ensures dictlist == Concat(parts, |parts|)
  {
    dictlist := [];
    var i := 0;
    while i < |files|
      invariant 0 <= i <= |files|
      invariant dictlist == Concat(parts, i)
    {
      var entries := FileEntries(files[i], crossref, g);
      dictlist := dictlist + entries;
      i := i + 1;
    }
  }

  /** `extract_crossref` on one file. */
  method FileTable(datalist: seq<string>, ghost f: seq<string> -> Result<CrossrefTable>) returns (c: Result<CrossrefTable>)
    requires IsExtractCrossref(f)
    ensures c == f(datalist)
  {
    c := ExtractCrossref(datalist);
  }

  /** `translate_bibtex_to_dictionary` on one file. */
  method FileEntries(datalist: seq<string>, crossref: CrossrefTable, ghost g: seq<string> -> seq<FieldMap>)
    returns (entries: seq<FieldMap>)
    requires IsTranslate(g, crossref)
    ensures entries == g(datalist)
  {
    entries := TranslateBibtex(datalist, crossref);
  }

  /** Both loops, as `main` runs them. */
  method Run(files: Files) returns (r: Result<seq<FieldMap>>)
    ensures r == Listing(files)
  {
    var crossref := CollectCrossref(files);
    if crossref.KeyError? {
      return KeyError(crossref.key);
    }
    var dictlist := TranslateAll(files, crossref.value);
    r := Ok(dictlist);
  }

  // ----- Properties of the merged table -----

  /** One more round of the first loop. */
  lemma UnionStep(tables: seq<Result<CrossrefTable>>, i: nat, m: CrossrefTable, c: Result<CrossrefTable>)
    requires i < |tables| && UnionPrefix(tables, i) == Ok(m) && c == tables[i]
    ensures UnionPrefix(tables, i + 1) == if c.KeyError? then KeyError(c.key) else Ok(m + c.value)
  {
  }

  /** Once merging has failed it stays failed. */
  lemma {:induction false} UnionStopsAt(tables: seq<Result<CrossrefTable>>, i: nat, n: nat)
    requires i <= n <= |tables| && UnionPrefix(tables, i).KeyError?
    ensures UnionPrefix(tables, n) == UnionPrefix(tables, i)
    decreases n - i
  {
    if i < n {
      UnionStopsAt(tables, i, n - 1);
    }
  }

  /** Merging fails exactly when some table failed, and with the error
      of the first that did. */
  lemma {:induction false} UnionError(tables: seq<Result<CrossrefTable>>, n: nat)
    requires n <= |tables|
    ensures UnionPrefix(tables, n).KeyError? <==> exists j :: 0 <= j < n && tables[j].KeyError?
    ensures UnionPrefix(tables, n).KeyError? ==>
      exists j :: 0 <= j < n && tables[j] == UnionPrefix(tables, n) && forall j' :: 0 <= j' < j ==> tables[j'].Ok?
  {
    if n > 0 {
      UnionError(tables, n - 1);
    }
  }

  /** A file's table fails only with `KeyError("title")`. */
  lemma FileError(datalist: seq<string>)
    ensures CrossrefsOf(datalist).KeyError? ==> CrossrefsOf(datalist).key == "title"
  {
    var ds := BibItems(datalist);
    BibItemsHaveIds(datalist);
    CrossrefError(ds, Macros(ds), |ds|);
  }

  /** The ids of the merged table are exactly those of the tables. */
  lemma {:induction false} UnionKeys(tables: seq<Result<CrossrefTable>>, n: nat, k: string)
    requires n <= |tables| && UnionPrefix(tables, n).Ok?
    ensures forall j :: 0 <= j < n ==> tables[j].Ok?
    ensures k in UnionPrefix(tables, n).value <==> exists j :: 0 <= j < n && k in tables[j].value
  {
    if n > 0 {
      UnionKeys(tables, n - 1, k);
    }
  }

  /** An id filed in several tables holds the record of the last of them. */
  lemma {:induction false} UnionLastWins(tables: seq<Result<CrossrefTable>>, n: nat, j: nat, k: string)
    requires j < n <= |tables| && UnionPrefix(tables, n).Ok?
    requires tables[j].Ok? && k in tables[j].value
    requires forall j' :: j < j' < n && tables[j'].Ok? ==> k !in tables[j'].value
    ensures k in UnionPrefix(tables, n).value
    ensures UnionPrefix(tables, n).value[k] == tables[j].value[k]
  {
    if j < n - 1 {
      UnionLastWins(tables, n - 1, j, k);
    } else {
      UnionKeys(tables, n - 1, k);
    }
  }

  /** Every record of the merged table is a record of one of the tables. */
  lemma {:induction false} UnionFrom(tables: seq<Result<CrossrefTable>>, n: nat, k: string) returns (j: nat)
    requires n <= |tables| && UnionPrefix(tables, n).Ok?
    requires k in UnionPrefix(tables, n).value
    ensures j < n && tables[j].Ok? && k in tables[j].value
    ensures UnionPrefix(tables, n).value[k] == tables[j].value[k]
  {
    var c := tables[n - 1].value;
    if k in c {
      j := n - 1;
    } else {
      j := UnionFrom(tables, n - 1, k);
    }
  }

  /** Every record of the merged table of the files has the shape of a
      proceedings record. */
  lemma UnionRecords(files: Files, k: string)
    requires Union(files).Ok? && k in Union(files).value
    ensures IsRecord(Union(files).value[k])
  {
    var tables := TablesOf(files);
    var j := UnionFrom(tables, |files|, k);
    var ds := BibItems(files[j]);
    BibItemsHaveIds(files[j]);
    CrossrefRecords(ds, Macros(ds), |ds|, k);
  }

  /** Merging an article with a record of the merged table keeps its own
      type, id and title. */
  lemma UnionKeepsOwn(files: Files, d: FieldMap, k: string)
    requires Union(files).Ok?
    requires k in d && k in {"type", "id", "title"}
    ensures k in Augment(d, Union(files).value) && Augment(d, Union(files).value)[k] == d[k]
  {
    var m := Union(files).value;
    forall id | id in m ensures "type" !in m[id] && "id" !in m[id] && "title" !in m[id] {
      UnionRecords(files, id);
    }
    AugmentKeepsOwn(d, m, k);
  }

  // ----- Properties of the listing -----

  /** Appending the translations of several lists of entries gives the
      translation of the lists appended. */
  lemma {:induction false} ConcatTranslated(items: seq<seq<FieldMap>>, parts: seq<seq<FieldMap>>, crossref: CrossrefTable, n: nat)
    requires n <= |items| && n <= |parts|
    requires forall j {:trigger Translated(items[j], crossref)} :: 0 <= j < n ==> parts[j] == Translated(items[j], crossref)
    ensures Concat(parts, n) == Translated(Concat(items, n), crossref)
  {
    if n == 0 {
      assert Selected(AugmentAll([], crossref)) == [];
    } else {
      ConcatTranslated(items, parts, crossref, n - 1);
      TranslatedAppend(Concat(items, n - 1), items[n - 1], crossref);
    }
  }

  /** The listing is the translation of one file holding the entries of
      all the files, in the order the files were named. */
  lemma ListingIsTranslated(files: Files, crossref: CrossrefTable)
    ensures Concat(PartsOf(files, crossref), |files|) == Translated(Concat(ItemsOf(files), |files|), crossref)
  {
    ConcatTranslated(ItemsOf(files), PartsOf(files, crossref), crossref, |files|);
  }
}
