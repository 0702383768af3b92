/** `translate_bibtex_to_dictionary`: the articles of a file, each merged
    with the proceedings it cross-references, kept when they are
    `inproceedings` entries with an author and a title, and cleaned. */
module Translate {
  import opened BibItem
  import opened Cleanup
  import opened Crossref

  /** The entry merged with the record of the proceedings its `crossref`
      field names, the record's fields winning; otherwise the entry. */
  function Augment(d: FieldMap, crossref: CrossrefTable): FieldMap {
    if "crossref" in d && d["crossref"] in crossref then d + crossref[d["crossref"]] else d
  }

  /** The merge does inline what `replace_crossref` does: an entry with a
      `crossref` field is merged with the record that lookup returns, or
      left alone when it returns the text; an entry without one is left
      alone. */
  lemma AugmentByLookup(d: FieldMap, crossref: CrossrefTable)
    ensures "crossref" !in d ==> Augment(d, crossref) == d
    ensures "crossref" in d ==>
      Augment(d, crossref) ==
        match ReplaceCrossref(d["crossref"], "crossref", crossref)
        case Linked(r) => d + r
        case Text(_) => d
  {
  }

  /** The first `n` entries, each augmented. */
  function AugmentPrefix(ds: seq<FieldMap>, crossref: CrossrefTable, n: nat): (r: seq<FieldMap>)
    requires n <= |ds|
    ensures |r| == n
  {
    if n == 0 then [] else AugmentPrefix(ds, crossref, n - 1) + [Augment(ds[n - 1], crossref)]
  }

  /** Every entry augmented. */
  function AugmentAll(ds: seq<FieldMap>, crossref: CrossrefTable): (r: seq<FieldMap>)
    ensures |r| == |ds|
  {
    AugmentPrefix(ds, crossref, |ds|)
  }

  /** The three filters: the article type, then the presence of an author
      and a title, then their being non-empty. The `in` guards of the
      first and last only make them total: every parsed entry has a type,
      and the second filter runs before the last. */
  predicate IsArticle(d: FieldMap) {
    "type" in d && d["type"] == "inproceedings"
  }

  predicate HasAuthorTitle(d: FieldMap) {
    "author" in d && "title" in d
  }

  predicate IsNonBlank(d: FieldMap) {
    "author" in d && "title" in d && d["author"] != "" && d["title"] != ""
  }

  /** The entries among the first `n` that pass filter `f`, in order. */
  function FilterPrefix(f: FieldMap -> bool, ds: seq<FieldMap>, n: nat): seq<FieldMap>
    requires n <= |ds|
  {
    if n == 0 then []
    else FilterPrefix(f, ds, n - 1) + (if f(ds[n - 1]) then [ds[n - 1]] else [])
  }

  /** `[d for d in ds if f(d)]`. */
  function Filter(f: FieldMap -> bool, ds: seq<FieldMap>): seq<FieldMap> {
    FilterPrefix(f, ds, |ds|)
  }

  /** The entries that all three filters keep. */
  function Selected(ds: seq<FieldMap>): seq<FieldMap> {
    Filter(IsNonBlank, Filter(HasAuthorTitle, Filter(IsArticle, ds)))
  }

  /** The author and the title of an entry cleaned. */
  function Clean(d: FieldMap): FieldMap
    requires "author" in d && "title" in d
  {
    d["author" := CleanedAuthor(d["author"])]["title" := CleanedTitle(d["title"])]
  }

  /** Entries that all carry an author and a title. */
  predicate AllHaveAuthorTitle(ds: seq<FieldMap>) {
    forall i :: 0 <= i < |ds| ==> "author" in ds[i] && "title" in ds[i]
  }

  /** The list after the first `i` rounds of a loop that replaces each
      entry by `f` of it in place. */
  function InPlace(ds: seq<FieldMap>, f: FieldMap --> FieldMap, i: nat): (r: seq<FieldMap>)
    requires i <= |ds|
    requires forall j :: 0 <= j < |ds| ==> f.requires(ds[j])
    ensures |r| == |ds|
  {
    if i == 0 then ds else InPlace(ds, f, i - 1)[i - 1 := f(ds[i - 1])]
  }

  /** The result for the parsed entries of a file. */
  function Translated(ds: seq<FieldMap>, crossref: CrossrefTable): seq<FieldMap> {
    var sel := Selected(AugmentAll(ds, crossref));
    SelectedHaveAuthorTitle(AugmentAll(ds, crossref));
    InPlace(sel, Clean, |sel|)
  }

  /** `translate_bibtex_to_dictionary` on the lines of a file. */
  function TranslateOf(datalist: seq<string>, crossref: CrossrefTable): seq<FieldMap> {
    Translated(BibItems(datalist), crossref)
  }

  // ----- Properties of the filters and the cleaning loop -----

  /** A filter keeps exactly the entries that pass it. */
  lemma {:induction false} FilterMembers(f: FieldMap -> bool, ds: seq<FieldMap>, n: nat, x: FieldMap)
    requires n <= |ds|
    ensures x in FilterPrefix(f, ds, n) <==> x in ds[..n] && f(x)
  {
    if n > 0 {
      FilterMembers(f, ds, n - 1, x);
      assert ds[..n] == ds[..n - 1] + [ds[n - 1]];
    }
  }

  /** Filtering a concatenation filters each part: the order of the kept
      entries is that of the input. */
  lemma {:induction false} FilterAppend(f: FieldMap -> bool, a: seq<FieldMap>, b: seq<FieldMap>, n: nat)
    requires n <= |b|
    ensures FilterPrefix(f, a + b, |a| + n) == Filter(f, a) + FilterPrefix(f, b, n)
  {
    if n == 0 {
      FilterFrame(f, a, b, |a|);
    } else {
      FilterAppend(f, a, b, n - 1);
      assert (a + b)[|a| + n - 1] == b[n - 1];
    }
  }

  lemma {:induction false} FilterFrame(f: FieldMap -> bool, a: seq<FieldMap>, b: seq<FieldMap>, n: nat)
    requires n <= |a|
    ensures FilterPrefix(f, a + b, n) == FilterPrefix(f, a, n)
  {
    if n > 0 {
      FilterFrame(f, a, b, n - 1);
      assert (a + b)[n - 1] == a[n - 1];
    }
  }

  /** The selected entries are exactly the articles with a non-empty
      author and title. */
  lemma SelectedMembers(ds: seq<FieldMap>, x: FieldMap)
    ensures x in Selected(ds) <==> x in ds && IsArticle(x) && IsNonBlank(x)
  {
    var a := Filter(IsArticle, ds);
    var h := Filter(HasAuthorTitle, a);
    FilterMembers(IsArticle, ds, |ds|, x);
    FilterMembers(HasAuthorTitle, a, |a|, x);
    FilterMembers(IsNonBlank, h, |h|, x);
    assert ds[..|ds|] == ds && a[..|a|] == a && h[..|h|] == h;
  }

  lemma SelectedHaveAuthorTitle(ds: seq<FieldMap>)
    ensures AllHaveAuthorTitle(Selected(ds))
  {
    var s := Selected(ds);
    forall i | 0 <= i < |s| ensures "author" in s[i] && "title" in s[i] {
      SelectedMembers(ds, s[i]);
    }
  }

  /** After `i` rounds the entries before `i` are replaced and the others
      are as they were. */
  lemma {:induction false} InPlaceAt(ds: seq<FieldMap>, f: FieldMap --> FieldMap, i: nat, j: nat)
    requires i <= |ds| && j < |ds|
    requires forall j :: 0 <= j < |ds| ==> f.requires(ds[j])
    ensures InPlace(ds, f, i)[j] == if j < i then f(ds[j]) else ds[j]
  {
    if i > 0 {
      InPlaceAt(ds, f, i - 1, j);
    }
  }

  /** One more round replaces entry `i` by `f` of it. */
  lemma InPlaceStep(ds: seq<FieldMap>, f: FieldMap --> FieldMap, i: nat, d: FieldMap)
    requires i < |ds|
    requires forall j :: 0 <= j < |ds| ==> f.requires(ds[j])
    requires d == f(ds[i])
    ensures InPlace(ds, f, i + 1) == InPlace(ds, f, i)[i := d]
  {
  }

  /** The `j`-th augmented entry is the `j`-th entry augmented. */
  lemma {:induction false} AugmentPrefixAt(ds: seq<FieldMap>, crossref: CrossrefTable, n: nat, j: nat)
    requires j < n <= |ds|
    ensures AugmentPrefix(ds, crossref, n)[j] == Augment(ds[j], crossref)
  {
    if j < n - 1 {
      AugmentPrefixAt(ds, crossref, n - 1, j);
    }
  }

  /** Merging adds the fields of the named record, whose values win, and
      keeps every field the record lacks. */
  lemma AugmentSpec(d: FieldMap, crossref: CrossrefTable)
    ensures "crossref" in d && d["crossref"] in crossref ==>
      && Augment(d, crossref).Keys == d.Keys + crossref[d["crossref"]].Keys
      && forall k :: k in crossref[d["crossref"]] ==> Augment(d, crossref)[k] == crossref[d["crossref"]][k]
    ensures !("crossref" in d && d["crossref"] in crossref) ==> Augment(d, crossref) == d
    ensures forall k :: k in d && ("crossref" !in d || d["crossref"] !in crossref || k !in crossref[d["crossref"]]) ==>
      k in Augment(d, crossref) && Augment(d, crossref)[k] == d[k]
  {
  }

  /** Proceedings records carry no `type`, `id` or `title`, so merging one
      keeps the article's own type, id and title. */
  lemma AugmentKeepsOwn(d: FieldMap, crossref: CrossrefTable, k: string)
    requires forall id :: id in crossref ==> "type" !in crossref[id] && "id" !in crossref[id] && "title" !in crossref[id]
    requires k in d && k in {"type", "id", "title"}
    ensures k in Augment(d, crossref) && Augment(d, crossref)[k] == d[k]
  {
  }

  /** The augmented entries are exactly the entries, augmented. */
  lemma AugmentMembers(ds: seq<FieldMap>, crossref: CrossrefTable, y: FieldMap)
    ensures y in AugmentAll(ds, crossref) <==> exists j :: 0 <= j < |ds| && y == Augment(ds[j], crossref)
  {
    var aug := AugmentAll(ds, crossref);
    if y in aug {
      var i :| 0 <= i < |aug| && aug[i] == y;
      AugmentPrefixAt(ds, crossref, |ds|, i);
    }
    if exists j :: 0 <= j < |ds| && y == Augment(ds[j], crossref) {
      var j :| 0 <= j < |ds| && y == Augment(ds[j], crossref);
      AugmentPrefixAt(ds, crossref, |ds|, j);
    }
  }

  /** After every round, the list holds exactly the images of the entries. */
  lemma InPlaceMembers(ds: seq<FieldMap>, f: FieldMap --> FieldMap, x: FieldMap)
    requires forall j :: 0 <= j < |ds| ==> f.requires(ds[j])
    ensures x in InPlace(ds, f, |ds|) <==> exists y :: y in ds && x == f(y)
  {
    var r := InPlace(ds, f, |ds|);
    if x in r {
      var i :| 0 <= i < |r| && r[i] == x;
      InPlaceAt(ds, f, |ds|, i);
    }
    if exists y :: y in ds && x == f(y) {
      var y :| y in ds && x == f(y);
      var i :| 0 <= i < |ds| && ds[i] == y;
      InPlaceAt(ds, f, |ds|, i);
    }
  }

  /** The result holds exactly the cleaned forms of the merged entries that
      are articles with a non-empty author and title. */
  lemma TranslatedMembers(ds: seq<FieldMap>, crossref: CrossrefTable, x: FieldMap)
    ensures x in Translated(ds, crossref) <==>
      exists y :: y in AugmentAll(ds, crossref) && IsArticle(y) && IsNonBlank(y) && x == Clean(y)
  {
    var aug := AugmentAll(ds, crossref);
    var sel := Selected(aug);
    SelectedHaveAuthorTitle(aug);
    InPlaceMembers(sel, Clean, x);
    forall y ensures y in sel <==> y in aug && IsArticle(y) && IsNonBlank(y) {
      SelectedMembers(aug, y);
    }
  }

  /** Cleaning touches only the author and the title. */
  lemma CleanSpec(d: FieldMap)
    requires "author" in d && "title" in d
    ensures Clean(d).Keys == d.Keys
    ensures Clean(d)["author"] == CleanedAuthor(d["author"]) && Clean(d)["title"] == CleanedTitle(d["title"])
    ensures forall k :: k in d && k != "author" && k != "title" ==> Clean(d)[k] == d[k]
  {
  }

  /** Every entry of the result is an `inproceedings` with an author and
      a title, which are the cleaned forms of a non-empty author and
      title. */
  lemma TranslatedShape(ds: seq<FieldMap>, crossref: CrossrefTable, x: FieldMap)
    requires x in Translated(ds, crossref)
    ensures IsArticle(x) && "author" in x && "title" in x
    ensures exists a :: a != [] && x["author"] == CleanedAuthor(a)
    ensures exists t :: t != [] && x["title"] == CleanedTitle(t)
  {
    TranslatedMembers(ds, crossref, x);
    var y :| y in AugmentAll(ds, crossref) && IsArticle(y) && IsNonBlank(y) && x == Clean(y);
    CleanSpec(y);
  }

  /** Merging a concatenation merges each part. */
  lemma AugmentAppend(a: seq<FieldMap>, b: seq<FieldMap>, crossref: CrossrefTable)
    ensures AugmentAll(a + b, crossref) == AugmentAll(a, crossref) + AugmentAll(b, crossref)
  {
    var l, r := AugmentAll(a + b, crossref), AugmentAll(a, crossref) + AugmentAll(b, crossref);
    forall j | 0 <= j < |l| ensures l[j] == r[j] {
      AugmentPrefixAt(a + b, crossref, |a + b|, j);
      if j < |a| {
        AugmentPrefixAt(a, crossref, |a|, j);
      } else {
        AugmentPrefixAt(b, crossref, |b|, j - |a|);
      }
    }
  }

  /** Selecting from a concatenation selects from each part. */
  lemma SelectedAppend(a: seq<FieldMap>, b: seq<FieldMap>)
    ensures Selected(a + b) == Selected(a) + Selected(b)
  {
    FilterAppend(IsArticle, a, b, |b|);
    var a1, b1 := Filter(IsArticle, a), Filter(IsArticle, b);
    FilterAppend(HasAuthorTitle, a1, b1, |b1|);
    var a2, b2 := Filter(HasAuthorTitle, a1), Filter(HasAuthorTitle, b1);
    FilterAppend(IsNonBlank, a2, b2, |b2|);
  }

  /** The rounds of the loop over a concatenation do each part. */
  lemma InPlaceAppend(a: seq<FieldMap>, b: seq<FieldMap>, f: FieldMap --> FieldMap)
    requires forall j :: 0 <= j < |a| ==> f.requires(a[j])
    requires forall j :: 0 <= j < |b| ==> f.requires(b[j])
    ensures forall j :: 0 <= j < |a + b| ==> f.requires((a + b)[j])
    ensures InPlace(a + b, f, |a + b|) == InPlace(a, f, |a|) + InPlace(b, f, |b|)
  {
    assert forall j :: 0 <= j < |a + b| ==> f.requires((a + b)[j]) by {
      forall j | 0 <= j < |a + b| ensures f.requires((a + b)[j]) {
        if j >= |a| {
          assert (a + b)[j] == b[j - |a|];
        }
      }
    }
    var l, r := InPlace(a + b, f, |a + b|), InPlace(a, f, |a|) + InPlace(b, f, |b|);
    forall j | 0 <= j < |l| ensures l[j] == r[j] {
      InPlaceAt(a + b, f, |a + b|, j);
      if j < |a| {
        InPlaceAt(a, f, |a|, j);
      } else {
        InPlaceAt(b, f, |b|, j - |a|);
      }
    }
  }

  /** Each entry is translated on its own and the results keep the order
      of the input: translating a concatenation translates each part. */
  lemma TranslatedAppend(a: seq<FieldMap>, b: seq<FieldMap>, crossref: CrossrefTable)
    ensures Translated(a + b, crossref) == Translated(a, crossref) + Translated(b, crossref)
  {
    AugmentAppend(a, b, crossref);
    var sa, sb := Selected(AugmentAll(a, crossref)), Selected(AugmentAll(b, crossref));
    SelectedAppend(AugmentAll(a, crossref), AugmentAll(b, crossref));
    SelectedHaveAuthorTitle(AugmentAll(a, crossref));
    SelectedHaveAuthorTitle(AugmentAll(b, crossref));
    InPlaceAppend(sa, sb, Clean);
  }

  /** `translate_bibtex_to_dictionary` after the lines have been read. */
  method TranslateBibtex(datalist: seq<string>, crossref: CrossrefTable) returns (dictlist: seq<FieldMap>)
    ensures dictlist == TranslateOf(datalist, crossref)
  {
    var dictlist_bkp := ExtractBibitem(datalist);
    dictlist := MergeCrossrefs(dictlist_bkp, crossref);
    dictlist := Filter(IsArticle, dictlist);
    dictlist := Filter(HasAuthorTitle, dictlist);
    dictlist := Filter(IsNonBlank, dictlist);
    SelectedHaveAuthorTitle(AugmentAll(dictlist_bkp, crossref));
    dictlist := CleanupAll(dictlist);
  }

  /** The first loop: each entry copied and merged with the proceedings
      record its `crossref` names. */
  method MergeCrossrefs(dictlist_bkp: seq<FieldMap>, crossref: CrossrefTable) returns (dictlist: seq<FieldMap>)
    ensures dictlist == AugmentAll(dictlist_bkp, crossref)
  {
    dictlist := [];
    var i := 0;
    while i < |dictlist_bkp|
      invariant 0 <= i <= |dictlist_bkp|
      invariant dictlist == AugmentPrefix(dictlist_bkp, crossref, i)
    {
      var dlower := dictlist_bkp[i];
      if "crossref" in dlower {
        var k := dlower["crossref"];
        if k in crossref {
          dlower := dlower + crossref[k];
        }
      }
      dictlist := dictlist + [dlower];
      i := i + 1;
    }
  }

  /** The last loop: the author and title of each entry cleaned in place. */
  method CleanupAll(ds: seq<FieldMap>) returns (dictlist: seq<FieldMap>)
    requires AllHaveAuthorTitle(ds)
    ensures dictlist == InPlace(ds, Clean, |ds|)
  {
    dictlist := ds;
    var i := 0;
    while i < |dictlist|
      invariant 0 <= i <= |ds| && |dictlist| == |ds|
      invariant dictlist == InPlace(ds, Clean, i)
    {
      InPlaceAt(ds, Clean, i, i);
      var d := CleanEntry(dictlist[i]);
      InPlaceStep(ds, Clean, i, d);
      dictlist := dictlist[i := d];
      i := i + 1;
    }
  }

  /** One round of the last loop: the author, then the title, of one entry
      cleaned. */
  method CleanEntry(d0: FieldMap) returns (d: FieldMap)
    requires "author" in d0 && "title" in d0
    ensures d == Clean(d0)
  {
    d := d0;
    var author := CleanupAuthor(d["author"]);
    d := d["author" := author];
    d := d["title" := CleanedTitle(d["title"])];
  }
}
