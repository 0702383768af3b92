/** `extract_crossref`: the `@string` macros of a file and the table of
    its `@proceedings` entries, keyed by id, that articles refer to through
    their `crossref` field; and `replace_crossref`. */
module Crossref {
  import opened PyStr
  import opened BibItem

  /** A value, or the key whose lookup raised `KeyError`. */
  datatype Result<T> = Ok(value: T) | KeyError(key: string)

  /** The macro table: each `@string` name with its text, in the order the
      names were first defined (the iteration order of a Python dict). */
  type MacroTable = seq<(string, string)>

  /** The proceedings table: an id to the fields of that proceedings. */
  type CrossrefTable = map<string, FieldMap>

  /** Some entry of the table has name `k`. */
  predicate Defines(t: MacroTable, k: string) {
    exists i :: 0 <= i < |t| && t[i].0 == k
  }

  /** No name occurs twice. */
  predicate Distinct(t: MacroTable) {
    forall i, j :: 0 <= i < j < |t| ==> t[i].0 != t[j].0
  }

  /** The first index from `i` on with name `k`, or `|t|`. */
  function IndexFrom(t: MacroTable, k: string, i: nat): (j: nat)
    requires i <= |t|
    ensures i <= j <= |t|
    ensures j < |t| ==> t[j].0 == k
    decreases |t| - i
  {
    if i == |t| || t[i].0 == k then i else IndexFrom(t, k, i + 1)
  }

  lemma {:induction false} IndexFromSkips(t: MacroTable, k: string, i: nat)
    requires i <= |t|
    ensures forall j :: i <= j < IndexFrom(t, k, i) ==> t[j].0 != k
    decreases |t| - i
  {
    if i < |t| && t[i].0 != k {
      IndexFromSkips(t, k, i + 1);
    }
  }

  /** Python's `t[k] = v` on an insertion-ordered dict: a known name keeps
      its place and takes the new text, a new name goes at the end. */
  function Put(t: MacroTable, k: string, v: string): MacroTable {
    var i := IndexFrom(t, k, 0);
    if i == |t| then t + [(k, v)] else t[i := (k, v)]
  }

  /** On a table without repeated names, `Put` replaces the text of `k`
      in place when `k` is defined and appends it otherwise. */
  lemma PutSpec(t: MacroTable, k: string, v: string)
    requires Distinct(t)
    ensures Defines(t, k) ==>
      && |Put(t, k, v)| == |t|
      && (forall i :: 0 <= i < |t| ==> Put(t, k, v)[i] == (if t[i].0 == k then (k, v) else t[i]))
    ensures !Defines(t, k) ==> Put(t, k, v) == t + [(k, v)]
  {
    IndexFromSkips(t, k, 0);
  }

  /** After `Put`, exactly the names defined before and `k` are defined, and
      still none twice. */
  lemma PutNames(t: MacroTable, k: string, v: string, x: string)
    requires Distinct(t)
    ensures Defines(Put(t, k, v), x) <==> Defines(t, x) || x == k
    ensures Distinct(Put(t, k, v))
  {
    IndexFromSkips(t, k, 0);
    var r := Put(t, k, v);
    var i := IndexFrom(t, k, 0);
    if Defines(t, x) {
      var j :| 0 <= j < |t| && t[j].0 == x;
      assert r[j].0 == x;
    }
    if x == k {
      if i == |t| { assert r[|t|].0 == k; } else { assert r[i].0 == k; }
    }
    if Defines(r, x) && x != k {
      var j :| 0 <= j < |r| && r[j].0 == x;
      assert t[j].0 == x;
    }
  }

  // ----- The macro table -----

  /** An entry whose type field is `string`. */
  predicate IsMacro(d: FieldMap) {
    "type" in d && d["type"] == "string"
  }

  /** An entry whose type field is `proceedings`. */
  predicate IsProceedings(d: FieldMap) {
    "type" in d && d["type"] == "proceedings"
  }

  /** Every macro and proceedings entry has the `id` field that is read
      from it. */
  predicate HasIds(ds: seq<FieldMap>) {
    forall i :: 0 <= i < |ds| ==> (IsMacro(ds[i]) || IsProceedings(ds[i])) ==> "id" in ds[i]
  }

  /** The name and text of a macro: its id text cut and trimmed as a
      `key = value` text is. */
  function MacroOf(d: FieldMap): (string, string)
    requires "id" in d
  {
    KeyValue(d["id"])
  }

  /** The macro table of the first `n` entries. */
  function MacroPrefix(ds: seq<FieldMap>, n: nat): MacroTable
    requires n <= |ds| && HasIds(ds)
  {
    if n == 0 then []
    else if IsMacro(ds[n - 1]) then Put(MacroPrefix(ds, n - 1), MacroOf(ds[n - 1]).0, MacroOf(ds[n - 1]).1)
    else MacroPrefix(ds, n - 1)
  }

  /** The macro table of a list of entries. */
  function Macros(ds: seq<FieldMap>): MacroTable
    requires HasIds(ds)
  {
    MacroPrefix(ds, |ds|)
  }

  /** The macro table never names a macro twice, and it names exactly the
      macros among the entries. */
  lemma {:induction false} MacroNames(ds: seq<FieldMap>, n: nat, x: string)
    requires n <= |ds| && HasIds(ds)
    ensures Distinct(MacroPrefix(ds, n))
    ensures Defines(MacroPrefix(ds, n), x) <==> exists j :: 0 <= j < n && IsMacro(ds[j]) && MacroOf(ds[j]).0 == x
  {
    if n > 0 {
      MacroNames(ds, n - 1, x);
      if IsMacro(ds[n - 1]) {
        PutNames(MacroPrefix(ds, n - 1), MacroOf(ds[n - 1]).0, MacroOf(ds[n - 1]).1, x);
      }
    }
  }

  /** A macro defined again later takes the text of its last definition. */
  lemma {:induction false} MacroLastWins(ds: seq<FieldMap>, n: nat, j: nat)
    requires j < n <= |ds| && HasIds(ds) && IsMacro(ds[j])
    requires forall j' :: j < j' < n && IsMacro(ds[j']) ==> MacroOf(ds[j']).0 != MacroOf(ds[j]).0
    ensures MacroOf(ds[j]) in MacroPrefix(ds, n)
  {
    var (k, v) := MacroOf(ds[j]);
    if j == n - 1 {
      var t := MacroPrefix(ds, n - 1);
      MacroNames(ds, n - 1, k);
      PutSpec(t, k, v);
      if Defines(t, k) {
        var i :| 0 <= i < |t| && t[i].0 == k;
        assert Put(t, k, v)[i] == (k, v);
      } else {
        assert Put(t, k, v)[|t|] == (k, v);
      }
    } else {
      MacroLastWins(ds, n - 1, j);
      if IsMacro(ds[n - 1]) {
        var t := MacroPrefix(ds, n - 1);
        MacroNames(ds, n - 1, k);
        PutSpec(t, MacroOf(ds[n - 1]).0, MacroOf(ds[n - 1]).1);
        var i :| 0 <= i < |t| && t[i] == (k, v);
        assert Put(t, MacroOf(ds[n - 1]).0, MacroOf(ds[n - 1]).1)[i] == (k, v);
      }
    }
  }

  /** The macro table of the entries, built one entry at a time. */
  method BuildMacroTable(dictlist: seq<FieldMap>) returns (strdict: MacroTable)
    requires HasIds(dictlist)
    ensures strdict == Macros(dictlist)
  {
    strdict := [];
    var i := 0;
    while i < |dictlist|
      invariant 0 <= i <= |dictlist|
      invariant strdict == MacroPrefix(dictlist, i)
    {
      var d := dictlist[i];
      if "type" in d && d["type"] == "string" {
        var key, value := SplitPair(d["id"]);
        strdict := Put(strdict, key, value);
      }
      i := i + 1;
    }
  }

  // ----- Title canonicalisation -----

  /** The macro table as replacements: each name, upper-cased, by its text. */
  function MacroReplacements(t: MacroTable): (r: seq<(string, string)>)
    ensures |r| == |t|
  {
    seq(|t|, i requires 0 <= i < |t| => (Upper(t[i].0), t[i].1))
  }

  /** Whitespace as the `\s` class of Python's `re` sees it. */
  predicate IsSpace(c: char) {
    c in PyWhitespace
  }

  /** The characters the title keeps: ASCII letters and digits,
      whitespace, `.`, `(` and `)`. */
  predicate Allowed(c: char) {
    ('a' <= c <= 'z') || ('A' <= c <= 'Z') || ('0' <= c <= '9') || IsSpace(c) || c == '.' || c == '(' || c == ')'
  }

  /** Every character that is not allowed replaced by a space. */
  function Blank(s: string): (r: string)
    ensures |r| == |s|
  {
    seq(|s|, i requires 0 <= i < |s| => if Allowed(s[i]) then s[i] else ' ')
  }

  /** The first `n` characters with every run of whitespace replaced by
      one space: a whitespace character right after another is dropped,
      any other becomes a space. */
  function CollapsePrefix(s: string, n: nat): string
    requires n <= |s|
  {
    if n == 0 then []
    else if IsSpace(s[n - 1]) && n >= 2 && IsSpace(s[n - 2]) then CollapsePrefix(s, n - 1)
    else CollapsePrefix(s, n - 1) + [if IsSpace(s[n - 1]) then ' ' else s[n - 1]]
  }

  /** `re.sub(r"\s+", " ", s)`. */
  function Collapse(s: string): string {
    CollapsePrefix(s, |s|)
  }

  /** `canonicalize_title`: the macros substituted in table order, the
      characters that are not allowed blanked, the whitespace collapsed. */
  function CanonicalTitle(title: string, t: MacroTable): string {
    Collapse(Blank(ReplaceAll(title, MacroReplacements(t))))
  }

  /** A text whose only whitespace is single spaces. */
  predicate SingleSpaced(s: string) {
    && (forall i :: 0 <= i < |s| ==> IsSpace(s[i]) ==> s[i] == ' ')
    && (forall i :: 0 <= i < |s| - 1 ==> !(s[i] == ' ' && s[i + 1] == ' '))
  }

  /** Blanking leaves only allowed characters and keeps those in place. */
  lemma BlankSpec(s: string)
    ensures forall i :: 0 <= i < |s| ==> Allowed(Blank(s)[i])
    ensures forall i :: 0 <= i < |s| && Allowed(s[i]) ==> Blank(s)[i] == s[i]
  {
    assert IsSpace(' ');
  }

  /** Collapsing gives single-spaced text, keeps every other character,
      and ends in a space exactly when the text ends in whitespace. */
  lemma {:induction false} CollapsePrefixSpec(s: string, n: nat)
    requires n <= |s|
    ensures SingleSpaced(CollapsePrefix(s, n))
    ensures forall c :: c in CollapsePrefix(s, n) && !IsSpace(c) ==> c in s[..n]
    ensures n > 0 ==>
      && CollapsePrefix(s, n) != []
      && (CollapsePrefix(s, n)[|CollapsePrefix(s, n)| - 1] == ' ' <==> IsSpace(s[n - 1]))
  {
    assert IsSpace(' ');
    if n > 0 {
      CollapsePrefixSpec(s, n - 1);
      assert s[..n] == s[..n - 1] + [s[n - 1]];
    }
  }

  /** Collapsing a single-spaced text changes nothing; so collapsing is
      idempotent. */
  lemma {:induction false} CollapsePrefixFixed(s: string, n: nat)
    requires n <= |s| && SingleSpaced(s)
    ensures CollapsePrefix(s, n) == s[..n]
  {
    if n > 0 {
      CollapsePrefixFixed(s, n - 1);
      assert s[..n] == s[..n - 1] + [s[n - 1]];
    }
  }

  lemma CollapseIdempotent(s: string)
    ensures Collapse(Collapse(s)) == Collapse(s)
  {
    CollapsePrefixSpec(s, |s|);
    CollapsePrefixFixed(Collapse(s), |Collapse(s)|);
  }

  /** The canonical title is single-spaced and every character of it is
      an ASCII letter or digit, a space, `.`, `(` or `)`. */
  lemma CanonicalShape(title: string, t: MacroTable)
    ensures SingleSpaced(CanonicalTitle(title, t))
    ensures forall c :: c in CanonicalTitle(title, t) ==>
      ('a' <= c <= 'z') || ('A' <= c <= 'Z') || ('0' <= c <= '9') || c == ' ' || c == '.' || c == '(' || c == ')'
  {
    var b := Blank(ReplaceAll(title, MacroReplacements(t)));
    BlankSpec(ReplaceAll(title, MacroReplacements(t)));
    CollapsePrefixSpec(b, |b|);
    assert b[..|b|] == b;
    forall c | c in CanonicalTitle(title, t)
      ensures ('a' <= c <= 'z') || ('A' <= c <= 'Z') || ('0' <= c <= '9') || c == ' ' || c == '.' || c == '(' || c == ')'
    {
      if !IsSpace(c) {
        var i :| 0 <= i < |b| && b[i] == c;
        assert Allowed(b[i]);
      }
    }
  }

  /** Canonicalising keeps a title that is already single-spaced, made of
      allowed characters, and holds no upper-cased macro name. */
  lemma CanonicalStable(title: string, t: MacroTable)
    requires SingleSpaced(title)
    requires forall i :: 0 <= i < |title| ==> Allowed(title[i])
    requires forall i :: 0 <= i < |t| ==> Upper(t[i].0) != [] && !Contains(title, Upper(t[i].0))
    ensures CanonicalTitle(title, t) == title
  {
    var r := MacroReplacements(t);
    ReplaceStepsAbsent(title, r, |r|);
    BlankSpec(title);
    assert Blank(title) == title;
    CollapsePrefixFixed(title, |title|);
    assert title[..|title|] == title;
  }

  /** `canonicalize_title`, substituting one macro at a time. */
  method Canonicalize(title0: string, strdict: MacroTable) returns (title: string)
    ensures title == CanonicalTitle(title0, strdict)
  {
    ghost var r := MacroReplacements(strdict);
    title := title0;
    var i := 0;
    while i < |strdict|
      invariant 0 <= i <= |strdict|
      invariant title == ReplaceSteps(title0, r, i)
    {
      var (k, v) := strdict[i];
      title := Replace(title, Upper(k), v);
      i := i + 1;
    }
    title := Blank(title);
    title := Collapse(title);
  }

  // ----- The proceedings table -----

  /** What is stored for a proceedings: its fields with the canonical
      title added as `crossref_title` and `title`, `type` and `id` removed. */
  function Record(d: FieldMap, t: MacroTable): FieldMap
    requires "title" in d
  {
    d["crossref_title" := CanonicalTitle(d["title"], t)] - {"title", "type", "id"}
  }

  /** The proceedings table of the first `n` entries; a proceedings without
      a title raises `KeyError`. */
  function CrossrefPrefix(ds: seq<FieldMap>, t: MacroTable, n: nat): Result<CrossrefTable>
    requires n <= |ds| && HasIds(ds)
  {
    if n == 0 then Ok(map[])
    else
      match CrossrefPrefix(ds, t, n - 1)
      case KeyError(k) => KeyError(k)
      case Ok(m) =>
        var d := ds[n - 1];
        if !IsProceedings(d) then Ok(m)
        else if "title" !in d then KeyError("title")
        else Ok(m[d["id"] := Record(d, t)])
  }

  /** The proceedings table of a list of entries, titles canonicalised with
      the macros of the same entries. */
  function Crossrefs(ds: seq<FieldMap>): Result<CrossrefTable>
    requires HasIds(ds)
  {
    CrossrefPrefix(ds, Macros(ds), |ds|)
  }

  /** The parsed entries of a file always carry the ids that are read. */
  lemma BibItemsHaveIds(datalist: seq<string>)
    ensures HasIds(BibItems(datalist))
  {
    BibItemsHaveTypeAndId(datalist);
  }

  /** `extract_crossref` on the lines of a file. */
  function CrossrefsOf(datalist: seq<string>): Result<CrossrefTable> {
    BibItemsHaveIds(datalist);
    Crossrefs(BibItems(datalist))
  }

  /** A record has the canonical title, no `title`, `type` or `id`, and
      every other field of the proceedings unchanged. */
  lemma RecordShape(d: FieldMap, t: MacroTable)
    requires "title" in d
    ensures "title" !in Record(d, t) && "type" !in Record(d, t) && "id" !in Record(d, t)
    ensures "crossref_title" in Record(d, t) && Record(d, t)["crossref_title"] == CanonicalTitle(d["title"], t)
    ensures forall k :: k !in {"title", "type", "id", "crossref_title"} ==>
      (k in Record(d, t) <==> k in d) && (k in d ==> Record(d, t)[k] == d[k])
  {
  }

  /** Building the table fails, with `KeyError("title")`, exactly when some
      proceedings has no title. */
  lemma {:induction false} CrossrefError(ds: seq<FieldMap>, t: MacroTable, n: nat)
    requires n <= |ds| && HasIds(ds)
    ensures CrossrefPrefix(ds, t, n).KeyError? <==> exists j :: 0 <= j < n && IsProceedings(ds[j]) && "title" !in ds[j]
    ensures CrossrefPrefix(ds, t, n).KeyError? ==> CrossrefPrefix(ds, t, n).key == "title"
  {
    if n > 0 {
      CrossrefError(ds, t, n - 1);
    }
  }

  /** The ids in the table are exactly those of the proceedings. */
  lemma {:induction false} CrossrefKeys(ds: seq<FieldMap>, t: MacroTable, n: nat, k: string)
    requires n <= |ds| && HasIds(ds) && CrossrefPrefix(ds, t, n).Ok?
    ensures k in CrossrefPrefix(ds, t, n).value <==> exists j :: 0 <= j < n && IsProceedings(ds[j]) && ds[j]["id"] == k
  {
    if n > 0 {
      CrossrefKeys(ds, t, n - 1, k);
    }
  }

  /** An id given to several proceedings holds the record of the last. */
  lemma {:induction false} CrossrefLastWins(ds: seq<FieldMap>, t: MacroTable, n: nat, j: nat)
    requires j < n <= |ds| && HasIds(ds) && CrossrefPrefix(ds, t, n).Ok?
    requires IsProceedings(ds[j])
    requires forall j' :: j < j' < n && IsProceedings(ds[j']) ==> ds[j']["id"] != ds[j]["id"]
    ensures "title" in ds[j]
    ensures ds[j]["id"] in CrossrefPrefix(ds, t, n).value
    ensures CrossrefPrefix(ds, t, n).value[ds[j]["id"]] == Record(ds[j], t)
  {
    if j < n - 1 {
      CrossrefLastWins(ds, t, n - 1, j);
    }
  }

  /** `extract_crossref` after the lines have been read: parse them,
      collect the macros, then file each proceedings under its id. */
  method ExtractCrossref(datalist: seq<string>) returns (r: Result<CrossrefTable>)
    ensures r == CrossrefsOf(datalist)
  {
    var dictlist := ExtractBibitem(datalist);
    BibItemsHaveIds(datalist);
    var strdict := BuildMacroTable(dictlist);
    r := CollectProceedings(dictlist, strdict);
  }

  /** The second loop of `extract_crossref`: each proceedings, its title
      canonicalised, filed under its id; it stops at the first proceedings
      without a title. */
  method CollectProceedings(dictlist: seq<FieldMap>, strdict: MacroTable) returns (r: Result<CrossrefTable>)
    requires HasIds(dictlist)
    ensures r == CrossrefPrefix(dictlist, strdict, |dictlist|)
  {
    var crossref: CrossrefTable := map[];
    var i := 0;
    while i < |dictlist|
      invariant 0 <= i <= |dictlist|
      invariant CrossrefPrefix(dictlist, strdict, i) == Ok(crossref)
    {
      var d := dictlist[i];
      if "type" in d && d["type"] == "proceedings" {
        if "title" !in d {
          CrossrefStopsAt(dictlist, strdict, i + 1, |dictlist|);
          return KeyError("title");
        }
        var key := d["id"];
        var title := Canonicalize(d["title"], strdict);
        d := d["crossref_title" := title];
        d := d - {"title"};
        d := d - {"type"};
        d := d - {"id"};
        assert d == Record(dictlist[i], strdict);
        crossref := crossref[key := d];
      }
      i := i + 1;
    }
    r := Ok(crossref);
  }

  /** What a proceedings record of the table looks like: no `title`,
      `type` or `id`, and a single-spaced `crossref_title` made of ASCII
      letters and digits, spaces, `.`, `(` and `)`. */
  predicate IsRecord(r: FieldMap) {
    && "title" !in r && "type" !in r && "id" !in r
    && "crossref_title" in r
    && SingleSpaced(r["crossref_title"])
    && forall c :: c in r["crossref_title"] ==>
         ('a' <= c <= 'z') || ('A' <= c <= 'Z') || ('0' <= c <= '9') || c == ' ' || c == '.' || c == '(' || c == ')'
  }

  /** Every record filed in a table that was built has that shape. */
  lemma {:induction false} CrossrefRecords(ds: seq<FieldMap>, t: MacroTable, n: nat, k: string)
    requires n <= |ds| && HasIds(ds) && CrossrefPrefix(ds, t, n).Ok?
    requires k in CrossrefPrefix(ds, t, n).value
    ensures IsRecord(CrossrefPrefix(ds, t, n).value[k])
  {
    var d := ds[n - 1];
    if IsProceedings(d) && d["id"] == k {
      RecordShape(d, t);
      CanonicalShape(d["title"], t);
    } else {
      CrossrefRecords(ds, t, n - 1, k);
    }
  }

  /** Once building the table has failed it stays failed. */
  lemma {:induction false} CrossrefStopsAt(ds: seq<FieldMap>, t: MacroTable, i: nat, n: nat)
    requires i <= n <= |ds| && HasIds(ds) && CrossrefPrefix(ds, t, i).KeyError?
    ensures CrossrefPrefix(ds, t, n) == CrossrefPrefix(ds, t, i)
    decreases n - i
  {
    if i < n {
      CrossrefStopsAt(ds, t, i, n - 1);
    }
  }

  /** What `replace_crossref` returns: a field value, or a proceedings record. */
  datatype Lookup = Text(text: string) | Linked(record: FieldMap)

  /** `replace_crossref`: the value of a `crossref` field that names a
      known proceedings is replaced by its record; any other value comes
      back as it was. */
  function ReplaceCrossref(value: string, key: string, crossref: CrossrefTable): (r: Lookup)
    ensures r.Linked? ==> r.record in crossref.Values
    ensures r.Text? ==> r.text == value
  {
    if key != "crossref" || value !in crossref then Text(value) else Linked(crossref[value])
  }
}
