/** `extract_bibitem`: the flat, best-effort BibTeX parser that turns the
    lines of a file into one field map per `@`-fragment. */
module BibItem {
  import opened PyStr

  /** One parsed entry: lower-cased field name to trimmed value. */
  type FieldMap = map<string, string>

  /** The characters trimmed from each input line. */
  const LineEnds: set<char> := {' ', '\n', '\t'}
  /** The characters trimmed from each `key = value` text. */
  const PairEnds: set<char> := {' ', ',', '\t', '\n'}
  /** The characters trimmed from a key. */
  const KeyEnds: set<char> := {' ', ',', '\n', '\t', '{', '}'}
  /** The characters trimmed from a value. */
  const ValueEnds: set<char> := {' ', ',', '\n', '\t', '{', '}', '"'}

  /** A line whose first two characters are `%%`. */
  predicate IsComment(line: string) {
    |line| >= 2 && line[..2] == "%%"
  }

  /** What one input line contributes: itself trimmed, or nothing when
      it is then a comment. */
  function CleanPiece(line: string): seq<string> {
    var t := Strip(line, LineEnds);
    if IsComment(t) then [] else [t]
  }

  /** The first `n` input lines trimmed, with the comment lines dropped. */
  function CleanPrefix(datalist: seq<string>, n: nat): seq<string>
    requires n <= |datalist|
  {
    if n == 0 then [] else CleanPrefix(datalist, n - 1) + CleanPiece(datalist[n - 1])
  }

  /** The input lines trimmed, with the comment lines dropped. */
  function CleanLines(datalist: seq<string>): seq<string> {
    CleanPrefix(datalist, |datalist|)
  }

  /** The first `n` lines, each followed by a newline, as one text. */
  function JoinedPrefix(lines: seq<string>, n: nat): string
    requires n <= |lines|
  {
    if n == 0 then [] else JoinedPrefix(lines, n - 1) + lines[n - 1] + "\n"
  }

  /** The lines, each followed by a newline, as one text. */
  function Joined(lines: seq<string>): string {
    JoinedPrefix(lines, |lines|)
  }

  /** The non-empty strings among the first `n` of `parts`, in order. */
  function NonEmptyPrefix(parts: seq<string>, n: nat): seq<string>
    requires n <= |parts|
  {
    if n == 0 then []
    else NonEmptyPrefix(parts, n - 1) + (if parts[n - 1] == [] then [] else [parts[n - 1]])
  }

  /** The non-empty strings of `parts`, in order. */
  function NonEmpty(parts: seq<string>): seq<string> {
    NonEmptyPrefix(parts, |parts|)
  }

  /** The non-empty pieces of the joined clean text between `@` signs. */
  function Fragments(datalist: seq<string>): seq<string> {
    NonEmpty(Split(Joined(CleanLines(datalist)), '@'))
  }

  /** The `key = value` texts of one fragment before trimming: the type
      (before the first `{`, lower-cased), the id (up to the next `,`) and
      the non-empty lines of the body (up to the last `}`). */
  function RawKeyLines(chunk: string): seq<string> {
    ["type = " + Lower(TypeText(chunk)), "id = " + IdText(chunk)] + NonEmpty(Split(BodyText(chunk), '\n'))
  }

  /** The text of a fragment before its first `{`. */
  function TypeText(chunk: string): string {
    Partition(chunk, '{').0
  }

  /** The text after the first `{`, up to the next `,`. */
  function IdText(chunk: string): string {
    Partition(Partition(chunk, '{').2, ',').0
  }

  /** The text after that `,`, up to the last `}`. */
  function BodyText(chunk: string): string {
    RPartition(Partition(Partition(chunk, '{').2, ',').2, '}').0
  }

  /** The first `n` texts, each trimmed of `cs`. */
  function StripPrefix(lines: seq<string>, cs: set<char>, n: nat): (r: seq<string>)
    requires n <= |lines|
    ensures |r| == n
  {
    if n == 0 then [] else StripPrefix(lines, cs, n - 1) + [Strip(lines[n - 1], cs)]
  }

  /** Every text trimmed of `cs`. */
  function StripEach(lines: seq<string>, cs: set<char>): (r: seq<string>)
    ensures |r| == |lines|
  {
    StripPrefix(lines, cs, |lines|)
  }

  /** The key and value of a `key = value` text: cut at the first `=`,
      the key trimmed and lower-cased, the value trimmed. */
  function KeyValue(s: string): (string, string) {
    var (k, _, v) := Partition(s, '=');
    (Lower(Strip(k, KeyEnds)), Strip(v, ValueEnds))
  }

  /** The key and value of each of the first `n` texts. */
  function PairsPrefix(lines: seq<string>, n: nat): (r: seq<(string, string)>)
    requires n <= |lines|
    ensures |r| == n
  {
    if n == 0 then [] else PairsPrefix(lines, n - 1) + [KeyValue(lines[n - 1])]
  }

  /** The key and value of every text. */
  function Pairs(lines: seq<string>): (r: seq<(string, string)>)
    ensures |r| == |lines|
  {
    PairsPrefix(lines, |lines|)
  }

  /** The field map of the first `n` key-value pairs: a later key
      overwrites an earlier one. */
  function FieldsPrefix(pairs: seq<(string, string)>, n: nat): FieldMap
    requires n <= |pairs|
  {
    if n == 0 then map[] else FieldsPrefix(pairs, n - 1)[pairs[n - 1].0 := pairs[n - 1].1]
  }

  /** The field map of a sequence of key-value pairs. */
  function Fields(pairs: seq<(string, string)>): FieldMap {
    FieldsPrefix(pairs, |pairs|)
  }

  /** The trimmed `key = value` texts of one fragment. */
  function KeyLines(chunk: string): (r: seq<string>)
    ensures |r| >= 2
  {
    StripEach(RawKeyLines(chunk), PairEnds)
  }

  /** The field map of one fragment. */
  function Entry(chunk: string): FieldMap {
    Fields(Pairs(KeyLines(chunk)))
  }

  /** The trimmed `key = value` texts of the first `n` fragments. */
  function KeyLinesList(biblist: seq<string>, n: nat): (r: seq<seq<string>>)
    requires n <= |biblist|
    ensures |r| == n
  {
    if n == 0 then [] else KeyLinesList(biblist, n - 1) + [KeyLines(biblist[n - 1])]
  }

  /** The field maps of the first `n` lists of `key = value` texts. */
  function DictList(listlist: seq<seq<string>>, n: nat): (r: seq<FieldMap>)
    requires n <= |listlist|
    ensures |r| == n
  {
    if n == 0 then [] else DictList(listlist, n - 1) + [Fields(Pairs(listlist[n - 1]))]
  }

  /** The field maps of a whole file, one per fragment, in order. */
  function BibItems(datalist: seq<string>): seq<FieldMap> {
    var fs := Fragments(datalist);
    DictList(KeyLinesList(fs, |fs|), |fs|)
  }

  /** Lines joined, each followed by a newline. */
  method JoinLines(lines: seq<string>) returns (data: string)
    ensures data == Joined(lines)
    ensures |data| >= |lines|
  {
    data := "";
    var i := 0;
    while i < |lines|
      invariant 0 <= i <= |lines|
      invariant data == JoinedPrefix(lines, i)
      invariant |data| >= i
    {
      data := data + lines[i] + "\n";
      i := i + 1;
    }
  }

  /** The trimmed `key = value` texts of one fragment: type, id, then the
      non-empty body lines. */
  method SplitEntry(s: string) returns (keylist: seq<string>)
    ensures keylist == KeyLines(s)
    ensures |keylist| >= 2
  {
    var (ty, _, rest) := Partition(s, '{');
    var (id, _, rest') := Partition(rest, ',');
    var body := RPartition(rest', '}').0;
    var head := ["type = " + Lower(ty), "id = " + id];
    keylist := head;
    var pieces := Split(body, '\n');
    var n := 0;
    while n < |pieces|
      invariant 0 <= n <= |pieces|
      invariant keylist == head + NonEmptyPrefix(pieces, n)
    {
      assert NonEmptyPrefix(pieces, n + 1) ==
        NonEmptyPrefix(pieces, n) + (if pieces[n] == [] then [] else [pieces[n]]);
      if |pieces[n]| != 0 {
        keylist := keylist + [pieces[n]];
      }
      n := n + 1;
    }
    keylist := StripEach(keylist, PairEnds);
  }

  /** One `key = value` text cut at its first `=`, the key trimmed and
      lower-cased, the value trimmed. */
  method SplitPair(s: string) returns (key: string, value: string)
    ensures (key, value) == KeyValue(s)
  {
    var (k, _, v) := Partition(s, '=');
    key := Strip(k, KeyEnds);
    key := Lower(key);
    value := Strip(v, ValueEnds);
  }

  /** The field map of trimmed texts, each cut into key and value. */
  method ToDict(l: seq<string>) returns (keydict: FieldMap)
    ensures keydict == Fields(Pairs(l))
  {
    ghost var pairs := Pairs(l);
    keydict := map[];
    var n := 0;
    while n < |l|
      invariant 0 <= n <= |l|
      invariant keydict == FieldsPrefix(pairs, n)
    {
      var key, value := SplitPair(l[n]);
      PairsAt(l, |l|, n);
      keydict := keydict[key := value];
      n := n + 1;
    }
  }

  /** The parser: trims and joins the lines, splits them at `@` and builds
      the field map of each non-empty fragment. */
  method ExtractBibitem(datalist: seq<string>) returns (dictlist: seq<FieldMap>)
    ensures dictlist == BibItems(datalist)
  {
    var data := JoinLines(CleanLines(datalist));
    var biblist := NonEmpty(Split(data, '@'));

    var listlist: seq<seq<string>> := [];
    var i := 0;
    while i < |biblist|
      invariant 0 <= i <= |biblist|
      invariant listlist == KeyLinesList(biblist, i)
    {
      var keylist := SplitEntry(biblist[i]);
      listlist := listlist + [keylist];
      i := i + 1;
    }

    dictlist := [];
    i := 0;
    while i < |listlist|
      invariant 0 <= i <= |listlist|
      invariant dictlist == DictList(listlist, i)
    {
      var keydict := ToDict(listlist[i]);
      dictlist := dictlist + [keydict];
      i := i + 1;
    }
  }

  /** Every entry of a file has a `type` and an `id` field. */
  predicate HasTypeAndId(ds: seq<FieldMap>) {
    forall i :: 0 <= i < |ds| ==> "type" in ds[i] && "id" in ds[i]
  }

  // ----- Properties of the field maps -----

  /** The `k`-th pair is the key and value of the `k`-th text. */
  lemma {:induction false} PairsAt(lines: seq<string>, n: nat, k: nat)
    requires k < n <= |lines|
    ensures PairsPrefix(lines, n)[k] == KeyValue(lines[k])
  {
    if k < n - 1 {
      PairsAt(lines, n - 1, k);
    }
  }

  /** The keys of a field map are exactly the keys of its pairs. */
  lemma {:induction false} FieldsKeys(pairs: seq<(string, string)>, n: nat, k: string)
    requires n <= |pairs|
    ensures k in FieldsPrefix(pairs, n) <==> exists j :: 0 <= j < n && pairs[j].0 == k
  {
    if n > 0 {
      FieldsKeys(pairs, n - 1, k);
    }
  }

  /** The value of a key is that of the last pair with that key. */
  lemma {:induction false} FieldsLastWins(pairs: seq<(string, string)>, n: nat, j: nat)
    requires j < n <= |pairs|
    requires forall j' :: j < j' < n ==> pairs[j'].0 != pairs[j].0
    ensures pairs[j].0 in FieldsPrefix(pairs, n)
    ensures FieldsPrefix(pairs, n)[pairs[j].0] == pairs[j].1
  {
    if j < n - 1 {
      FieldsLastWins(pairs, n - 1, j);
    }
  }

  /** Every key of a field map, with its value, is one of its pairs. */
  lemma {:induction false} FieldsFrom(pairs: seq<(string, string)>, n: nat, k: string) returns (j: nat)
    requires n <= |pairs| && k in FieldsPrefix(pairs, n)
    ensures j < n && pairs[j] == (k, FieldsPrefix(pairs, n)[k])
  {
    if pairs[n - 1].0 == k {
      j := n - 1;
    } else {
      j := FieldsFrom(pairs, n - 1, k);
    }
  }

  /** The `k`-th list of texts is that of the `k`-th fragment. */
  lemma {:induction false} KeyLinesListAt(biblist: seq<string>, n: nat, k: nat)
    requires k < n <= |biblist|
    ensures KeyLinesList(biblist, n)[k] == KeyLines(biblist[k])
  {
    if k < n - 1 {
      KeyLinesListAt(biblist, n - 1, k);
    }
  }

  /** The `k`-th field map is that of the `k`-th list of texts. */
  lemma {:induction false} DictListAt(listlist: seq<seq<string>>, n: nat, k: nat)
    requires k < n <= |listlist|
    ensures DictList(listlist, n)[k] == Fields(Pairs(listlist[k]))
  {
    if k < n - 1 {
      DictListAt(listlist, n - 1, k);
    }
  }

  /** One field map per fragment, in order: the `i`-th is the entry of the
      `i`-th fragment. */
  lemma BibItemsAt(datalist: seq<string>, i: nat)
    requires i < |Fragments(datalist)|
    ensures |BibItems(datalist)| == |Fragments(datalist)|
    ensures BibItems(datalist)[i] == Entry(Fragments(datalist)[i])
  {
    var fs := Fragments(datalist);
    KeyLinesListAt(fs, |fs|, i);
    DictListAt(KeyLinesList(fs, |fs|), |fs|, i);
  }

  // ----- Properties of the key-value texts -----

  /** The `k`-th trimmed text is the `k`-th text trimmed. */
  lemma {:induction false} StripPrefixAt(lines: seq<string>, cs: set<char>, n: nat, k: nat)
    requires k < n <= |lines|
    ensures StripPrefix(lines, cs, n)[k] == Strip(lines[k], cs)
  {
    if k < n - 1 {
      StripPrefixAt(lines, cs, n - 1, k);
    }
  }

  /** A key comes out trimmed and lower-case and a value trimmed; a text
      without `=` is all key, with an empty value. */
  lemma KeyValueClean(s: string)
    ensures Trimmed(KeyValue(s).0, KeyEnds) && IsLower(KeyValue(s).0)
    ensures Trimmed(KeyValue(s).1, ValueEnds)
    ensures '=' !in s ==> KeyValue(s) == (Lower(Strip(s, KeyEnds)), [])
  {
    var (k, _, v) := Partition(s, '=');
    PartitionSpec(s, '=');
    StripShape(k, KeyEnds);
    StripShape(v, ValueEnds);
    LowerTrimmed(Strip(k, KeyEnds), KeyEnds);
    LowerSpec(Strip(k, KeyEnds));
  }

  /** The `tag = x` text built for the type and the id, once trimmed, has
      key `tag` and value `x` trimmed of the value characters. */
  lemma TaggedLine(tag: string, x: string)
    requires tag != [] && '=' !in tag && IsLower(tag)
    requires tag[0] !in KeyEnds && tag[|tag| - 1] !in KeyEnds
    ensures KeyValue(Strip(tag + " = " + x, PairEnds)) == (tag, Strip(x, ValueEnds))
  {
    var w := RStrip(" " + x, PairEnds);
    assert tag + " = " + x == (tag + " =") + (" " + x);
    StripHeadThen(tag + " =", " " + x, PairEnds);
    assert (tag + " =") + w == (tag + " ") + "=" + w;
    PartitionAt((tag + " ") + "=" + w, '=', tag + " ", w);
    StripAt(tag + " ", KeyEnds, 0, |tag|);
    assert (tag + " ")[0..|tag|] == tag;
    LowerSpec(tag);
    StripAfterRStrip(" " + x, PairEnds, ValueEnds);
    StripCons(' ', x, ValueEnds);
  }

  /** The first two trimmed texts of a fragment are its type and id lines. */
  lemma KeyLinesHead(chunk: string)
    ensures KeyLines(chunk)[0] == Strip("type = " + Lower(TypeText(chunk)), PairEnds)
    ensures KeyLines(chunk)[1] == Strip("id = " + IdText(chunk), PairEnds)
  {
    var raw := RawKeyLines(chunk);
    StripPrefixAt(raw, PairEnds, |raw|, 0);
    StripPrefixAt(raw, PairEnds, |raw|, 1);
  }

  /** The first two pairs of a fragment are its `type`, lower-cased, and
      its `id`, each trimmed of the value characters. */
  lemma EntryHead(chunk: string)
    ensures Pairs(KeyLines(chunk))[0] == ("type", Strip(Lower(TypeText(chunk)), ValueEnds))
    ensures Pairs(KeyLines(chunk))[1] == ("id", Strip(IdText(chunk), ValueEnds))
  {
    KeyLinesHead(chunk);
    PairsHead(KeyLines(chunk), Lower(TypeText(chunk)), IdText(chunk));
  }

  /** Texts that start with the trimmed type and id lines start with the
      `type` and `id` pairs. */
  lemma PairsHead(kl: seq<string>, ty: string, id: string)
    requires |kl| >= 2
    requires kl[0] == Strip("type = " + ty, PairEnds) && kl[1] == Strip("id = " + id, PairEnds)
    ensures Pairs(kl)[0] == ("type", Strip(ty, ValueEnds))
    ensures Pairs(kl)[1] == ("id", Strip(id, ValueEnds))
  {
    PairsAt(kl, |kl|, 0);
    PairsAt(kl, |kl|, 1);
    HeadLines(ty, id);
  }

  /** The `type = …` and `id = …` lines the parser puts before the body
      parse back to their tags and the trimmed texts. */
  lemma HeadLines(ty: string, id: string)
    ensures KeyValue(Strip("type = " + ty, PairEnds)) == ("type", Strip(ty, ValueEnds))
    ensures KeyValue(Strip("id = " + id, PairEnds)) == ("id", Strip(id, ValueEnds))
  {
    assert IsLower("type") && "type" + " = " == "type = ";
    TaggedLine("type", ty);
    assert IsLower("id") && "id" + " = " == "id = ";
    TaggedLine("id", id);
  }

  /** Every entry has a `type` and an `id` field; unless a later line of
      the body sets them again, they hold the fragment's type, lower-cased,
      and its id. */
  lemma EntryTypeAndId(chunk: string)
    ensures "type" in Entry(chunk) && "id" in Entry(chunk)
    ensures (forall j :: 2 <= j < |KeyLines(chunk)| ==> Pairs(KeyLines(chunk))[j].0 != "type") ==>
      Entry(chunk)["type"] == Strip(Lower(TypeText(chunk)), ValueEnds)
    ensures (forall j :: 2 <= j < |KeyLines(chunk)| ==> Pairs(KeyLines(chunk))[j].0 != "id") ==>
      Entry(chunk)["id"] == Strip(IdText(chunk), ValueEnds)
  {
    var ps := Pairs(KeyLines(chunk));
    EntryHead(chunk);
    FieldsKeys(ps, |ps|, "type");
    FieldsKeys(ps, |ps|, "id");
    if forall j :: 2 <= j < |ps| ==> ps[j].0 != "type" {
      FieldsLastWins(ps, |ps|, 0);
    }
    if forall j :: 2 <= j < |ps| ==> ps[j].0 != "id" {
      FieldsLastWins(ps, |ps|, 1);
    }
  }

  /** Every field map of a file has a `type` and an `id` field. */
  lemma BibItemsHaveTypeAndId(datalist: seq<string>)
    ensures HasTypeAndId(BibItems(datalist))
  {
    var fs := Fragments(datalist);
    forall i | 0 <= i < |BibItems(datalist)|
      ensures "type" in BibItems(datalist)[i] && "id" in BibItems(datalist)[i]
    {
      BibItemsAt(datalist, i);
      EntryTypeAndId(fs[i]);
    }
  }

  /** A fragment without `{` is all type: its id and body are empty. A
      fragment whose text after the id has no `}` has an empty body. */
  lemma MissingBraces(chunk: string)
    ensures '{' !in chunk ==> TypeText(chunk) == chunk && IdText(chunk) == [] && BodyText(chunk) == []
    ensures '}' !in Partition(Partition(chunk, '{').2, ',').2 ==> BodyText(chunk) == []
  {
    PartitionSpec(chunk, '{');
    PartitionSpec(Partition(chunk, '{').2, ',');
    RPartitionSpec(Partition(Partition(chunk, '{').2, ',').2, '}');
  }

  /** A fragment with an empty body yields just its `type` and `id`. */
  lemma EmptyBody(chunk: string)
    requires BodyText(chunk) == []
    ensures Entry(chunk).Keys == {"type", "id"}
    ensures Entry(chunk)["type"] == Strip(Lower(TypeText(chunk)), ValueEnds)
    ensures Entry(chunk)["id"] == Strip(IdText(chunk), ValueEnds)
  {
    FirstAbsent([], '\n');
    assert Split([], '\n') == [[]];
    assert NonEmpty([[]]) == [];
    var ps := Pairs(KeyLines(chunk));
    assert |ps| == 2;
    EntryHead(chunk);
    forall k ensures k in Entry(chunk) <==> k in {"type", "id"} {
      FieldsKeys(ps, 2, k);
    }
    FieldsLastWins(ps, 2, 0);
    FieldsLastWins(ps, 2, 1);
  }

  // ----- Properties of the line handling -----

  /** Cleaning distributes over concatenation of the input lines. */
  lemma {:induction false} CleanPrefixAppend(a: seq<string>, b: seq<string>, n: nat)
    requires n <= |b|
    ensures CleanPrefix(a + b, |a| + n) == CleanLines(a) + CleanPrefix(b, n)
  {
    if n == 0 {
      CleanPrefixFrame(a, b, |a|);
    } else {
      CleanPrefixAppend(a, b, n - 1);
      assert (a + b)[|a| + n - 1] == b[n - 1];
    }
  }

  /** Cleaning a prefix looks only at that prefix. */
  lemma {:induction false} CleanPrefixFrame(a: seq<string>, b: seq<string>, n: nat)
    requires n <= |a|
    ensures CleanPrefix(a + b, n) == CleanPrefix(a, n)
  {
    if n > 0 {
      CleanPrefixFrame(a, b, n - 1);
      assert (a + b)[n - 1] == a[n - 1];
    }
  }

  lemma CleanLinesAppend(a: seq<string>, b: seq<string>)
    ensures CleanLines(a + b) == CleanLines(a) + CleanLines(b)
  {
    CleanPrefixAppend(a, b, |b|);
  }

  /** A line that is a comment once trimmed contributes nothing; any
      other line contributes itself trimmed. */
  lemma CleanLinesInsert(a: seq<string>, line: string, b: seq<string>)
    ensures IsComment(Strip(line, LineEnds)) ==>
      CleanLines(a + [line] + b) == CleanLines(a + b)
    ensures !IsComment(Strip(line, LineEnds)) ==>
      CleanLines(a + [line] + b) == CleanLines(a) + [Strip(line, LineEnds)] + CleanLines(b)
  {
    CleanLinesAppend(a + [line], b);
    CleanLinesAppend(a, [line]);
    CleanLinesAppend(a, b);
    assert CleanLines([line]) == CleanPiece(line) by {
      assert CleanPrefix([line], 0) == [];
    }
    assert CleanLines(a + [line] + b) == CleanLines(a) + CleanPiece(line) + CleanLines(b);
  }

  /** Every clean line is trimmed, is no comment, and comes from an input
      line. */
  lemma {:induction false} CleanPrefixMembers(datalist: seq<string>, n: nat)
    requires n <= |datalist|
    ensures forall x :: x in CleanPrefix(datalist, n) ==>
      Trimmed(x, LineEnds) && !IsComment(x) && exists j :: 0 <= j < n && x == Strip(datalist[j], LineEnds)
  {
    if n > 0 {
      CleanPrefixMembers(datalist, n - 1);
      StripShape(datalist[n - 1], LineEnds);
    }
  }

  lemma CleanLinesMembers(datalist: seq<string>)
    ensures forall x :: x in CleanLines(datalist) ==>
      Trimmed(x, LineEnds) && !IsComment(x) && exists j :: 0 <= j < |datalist| && x == Strip(datalist[j], LineEnds)
  {
    CleanPrefixMembers(datalist, |datalist|);
  }

  /** The joined text is the newline join of the lines followed by one
      empty piece. */
  lemma {:induction false} JoinedPrefixJoin(lines: seq<string>, n: nat)
    requires n <= |lines|
    ensures JoinedPrefix(lines, n) == JoinWith(lines[..n] + [[]], '\n')
  {
    if n > 0 {
      JoinedPrefixJoin(lines, n - 1);
      JoinWithSnoc(lines[..n], [], '\n');
      if n > 1 {
        JoinWithSnoc(lines[..n - 1], [], '\n');
        assert lines[..n] == lines[..n - 1] + [lines[n - 1]];
        JoinWithSnoc(lines[..n - 1], lines[n - 1], '\n');
      }
    }
  }

  /** Splitting the joined text at newlines gives back the lines, and a
      final empty piece, when no line holds a newline. */
  lemma JoinedSplit(lines: seq<string>)
    requires forall i :: 0 <= i < |lines| ==> '\n' !in lines[i]
    ensures Split(Joined(lines), '\n') == lines + [[]]
  {
    JoinedPrefixJoin(lines, |lines|);
    assert lines[..|lines|] == lines;
    SplitJoin(lines + [[]], '\n');
  }

  /** The first `n` non-empty parts are exactly the non-empty ones among
      the first `n` parts, in order. */
  lemma {:induction false} NonEmptyPrefixMembers(parts: seq<string>, n: nat)
    requires n <= |parts|
    ensures forall x :: x in NonEmptyPrefix(parts, n) <==> x != [] && x in parts[..n]
  {
    if n > 0 {
      NonEmptyPrefixMembers(parts, n - 1);
      assert parts[..n] == parts[..n - 1] + [parts[n - 1]];
    }
  }

  lemma NonEmptyMembers(parts: seq<string>)
    ensures forall x :: x in NonEmpty(parts) <==> x != [] && x in parts
  {
    NonEmptyPrefixMembers(parts, |parts|);
    assert parts[..|parts|] == parts;
  }

  /** Every fragment is non-empty and free of `@`. */
  lemma FragmentsShape(datalist: seq<string>)
    ensures forall f :: f in Fragments(datalist) ==> f != [] && '@' !in f
  {
    var pieces := Split(Joined(CleanLines(datalist)), '@');
    SplitSpec(Joined(CleanLines(datalist)), '@');
    NonEmptyMembers(pieces);
  }

  /** Every key of an entry is trimmed and lower-case, and every value
      trimmed. */
  lemma EntryClean(chunk: string, k: string)
    requires k in Entry(chunk)
    ensures Trimmed(k, KeyEnds) && IsLower(k)
    ensures Trimmed(Entry(chunk)[k], ValueEnds)
  {
    var kl := KeyLines(chunk);
    FieldsClean(kl, k);
  }

  /** The same for the field map of any list of texts. */
  lemma FieldsClean(kl: seq<string>, k: string)
    requires k in Fields(Pairs(kl))
    ensures Trimmed(k, KeyEnds) && IsLower(k)
    ensures Trimmed(Fields(Pairs(kl))[k], ValueEnds)
  {
    var ps := Pairs(kl);
    var j := FieldsFrom(ps, |ps|, k);
    PairsAt(kl, |kl|, j);
    KeyValueClean(kl[j]);
  }
}
