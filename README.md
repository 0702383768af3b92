# bibtex2html, modelled in Dafny

`bibtex2html.py` reads one or more BibTeX files and turns their
`@inproceedings` entries into a list of references for an HTML page. The
model covers the pipeline from the lines of each file to the final list of
records. It leaves out the rendering.

The pipeline has these stages:

- **Parsing (`extract_bibitem`).** Each line is trimmed and `%%` comment
  lines are dropped. The rest is joined with newlines and split at `@`. Each
  non-empty fragment is cut at its first `{` (the type), at its first `,`
  (the id) and at its last `}` (the body). The body's lines become
  `key = value` pairs in a field map.
- **The macro and proceedings tables (`extract_crossref`).** `@string`
  entries become a macro table. `@proceedings` entries become a table keyed
  by id. The title of each proceedings is canonicalised into
  `crossref_title`, and its `title`, `type` and `id` are removed.
- **Translation (`translate_bibtex_to_dictionary`).** The fields of a
  referenced proceedings are merged into each entry. Only `inproceedings`
  entries with a non-empty author and title are kept. Their authors and
  titles are cleaned up.
- **The cleanups.** `cleanup_author` runs an ordered table of accent and
  brace replacements, strips, and rewrites the `and` joiners.
  `cleanup_title` lower-cases and capitalises. `cleanup_page` turns `--`
  into `-`.
- **`main`.** It forms the union of the proceedings tables of all files,
  with later files winning. It then concatenates the translated entries of
  every file, in file order.

The project has six modules, one per file:

| file | module | what it holds |
|---|---|---|
| `pystr.dfy` | `PyStr` | Python's `str` primitives over `seq<char>`: `partition`, `rpartition`, `split`, non-overlapping `replace`, `strip` with a character set, ASCII `lower`/`upper`/`capitalize` |
| `bibitem.dfy` | `BibItem` | `extract_bibitem` |
| `cleanup.dfy` | `Cleanup` | `cleanup_author`, `cleanup_title`, `cleanup_page` |
| `crossref.dfy` | `Crossref` | `extract_crossref`, `canonicalize_title`, `replace_crossref` |
| `translate.dfy` | `Translate` | `translate_bibtex_to_dictionary` |
| `program.dfy` | `Program` | the two loops over the files in `main` |

**How the model is built:**

- Each loop of the source is a method with a `while` loop. The method is
  proved equal to a specification function: `BibItems`, `CleanedAuthor`,
  `Macros`, `CanonicalTitle`, `Crossrefs`, `Translated`, `Union` or
  `Listing`. The properties are lemmas about those functions.
- A field map is a `map<string, string>`.
- Python's `d1 | d2` is Dafny's `d1 + d2`, where the right side wins.
- The macro table is a sequence of pairs. The source walks it in dict order,
  and a redefined name keeps its first position.
- A `KeyError` raised by a dictionary lookup is the `KeyError` case of a
  `Result`.
- A file is given as the list of its lines.

## Model

| member | source | states |
|---|---|---|
| PyStr.PartitionSpec | bibtex2html.py:145-146 | `partition` at a character: the three parts rebuild the text; the separator is returned exactly when the character occurs; the head does not contain it; when it is absent the result is `(s, "", "")` |
| PyStr.RPartitionSpec | bibtex2html.py:147 | `rpartition` at a character: the parts rebuild the text; the tail does not contain the character; when it is absent the result is `("", "", s)` |
| PyStr.RPartitionStrSpec | bibtex2html.py:97 | `rpartition(" and ")`: the parts rebuild the text; the separator is found exactly when the pattern occurs, and then the cut is at an occurrence after which none starts, not even one overlapping the separator; the tail holds no occurrence; when it is absent the result is `("", "", s)` |
| PyStr.LastAtIs | bibtex2html.py:97 | an occurrence with no later one is the one the search for the last occurrence finds |
| PyStr.SplitSpec | bibtex2html.py:138 | `split` at a character: no part contains the separator, and joining the parts with it gives back the text |
| PyStr.SplitJoin | bibtex2html.py:159 | splitting a join of separator-free parts gives back exactly those parts |
| PyStr.ReplaceAbsent | bibtex2html.py:93 | `replace` leaves a text without the pattern unchanged |
| PyStr.ReplaceAvoids | bibtex2html.py:93 | a character absent from the replacement is absent after `replace` if it was absent before or was the whole pattern |
| PyStr.ReplaceShrinks | bibtex2html.py:122 | `replace` by a replacement no longer than the pattern never lengthens the text, and shortens it when the pattern occurs and the replacement is strictly shorter |
| PyStr.ReplaceOnce | bibtex2html.py:93 | a pattern that occurs once is replaced in that place and nowhere else |
| PyStr.StripShape | bibtex2html.py:95 | `strip` returns a contiguous slice of the text that neither starts nor ends with a stripped character, and only stripped characters were removed around it |
| PyStr.StripAt | bibtex2html.py:129 | `strip` removes exactly the leading and trailing stripped characters |
| PyStr.LowerSpec | bibtex2html.py:110 | `lower` keeps the length, leaves no upper-case ASCII letter, and fixes a lower-case text |
| PyStr.LowerTrimmed | bibtex2html.py:172-173 | lower-casing a trimmed key keeps it trimmed, since no stripped character is a letter |
| BibItem.ExtractBibitem | bibtex2html.py:127-179 | the parser's loops compute `BibItems` of the lines |
| BibItem.JoinLines | bibtex2html.py:133-135 | the `+=` loop gives each line followed by a newline |
| BibItem.SplitEntry | bibtex2html.py:144-164 | cutting one fragment gives the `type = …` and `id = …` lines followed by the non-empty body lines, each trimmed |
| BibItem.SplitPair | bibtex2html.py:171-174 | one line is cut at its first `=` into a trimmed, lower-cased key and a trimmed value |
| BibItem.ToDict | bibtex2html.py:168-177 | assigning the pairs one by one gives the field map of the lines |
| BibItem.BibItemsAt | bibtex2html.py:167-179 | exactly one map per non-empty fragment, and the i-th map is the entry of the i-th fragment |
| BibItem.FragmentsShape | bibtex2html.py:138-140 | every fragment is non-empty and has no `@` |
| BibItem.JoinedSplit | bibtex2html.py:133-138 | splitting the joined lines at newlines gives back the lines and one empty tail |
| BibItem.CleanLinesMembers | bibtex2html.py:129-130 | every kept line is a trimmed input line that is not a `%%` comment |
| BibItem.CleanLinesInsert | bibtex2html.py:130 | a line that is a `%%` comment after trimming contributes nothing; any other line contributes its trimmed self in its place |
| BibItem.CleanLinesAppend | bibtex2html.py:129-130 | line cleaning works line by line: cleaning two blocks is cleaning each |
| BibItem.NonEmptyMembers | bibtex2html.py:140 | the filter keeps exactly the non-empty fragments |
| BibItem.FieldsKeys | bibtex2html.py:170-175 | a key is in the entry exactly when some line produced it |
| BibItem.FieldsLastWins | bibtex2html.py:175 | when a key repeats in one entry, the last line's value wins |
| BibItem.FieldsFrom | bibtex2html.py:175 | every value in the entry comes from some line with that key |
| BibItem.KeyValueClean | bibtex2html.py:171-174 | the key is lower-cased and trimmed of space, comma, tab, newline and braces; the value is trimmed of those and `"`; a line without `=` gives the whole trimmed line as key and an empty value |
| BibItem.EntryClean | bibtex2html.py:170-175 | every key of an entry is lower-cased and trimmed, and every value is trimmed |
| BibItem.HeadLines | bibtex2html.py:148 | the `type = …` and `id = …` lines parse back to keys `type` and `id` with the trimmed texts |
| BibItem.EntryTypeAndId | bibtex2html.py:145-148 | every entry has `type` and `id`; unless a body line overrides them, they are the trimmed, lower-cased text before the first `{` and the trimmed text from there to the next `,` |
| BibItem.BibItemsHaveTypeAndId | bibtex2html.py:190 | every parsed entry has `type` and `id`, so the `"type" not in d` guards never fire |
| BibItem.MissingBraces | bibtex2html.py:145-147 | a fragment without `{` yields the whole fragment as type, an empty id and an empty body; without `}` after the id comma the body is empty |
| BibItem.EmptyBody | bibtex2html.py:145-148 | a fragment with an empty body yields exactly `type` and `id` |
| Cleanup.CleanupAuthor | bibtex2html.py:52-101 | the replacement loop, strip and joiner rewrite compute `CleanedAuthor` |
| Cleanup.AuthorHasNoBraces | bibtex2html.py:85-88 | a cleaned author never contains `{`, `}` or `.` |
| Cleanup.AccentEntity | bibtex2html.py:58-99 | in a name `a{\"u}b` with letters around the escape, the escape becomes `&uuml;` and its braces disappear |
| Cleanup.AccentExample | bibtex2html.py:67 | `M{\"u}ller` is cleaned to `M&uuml;ller` |
| Cleanup.CommaListSingle | bibtex2html.py:97-99 | a text without ` and ` is left unchanged by the joiner rewrite |
| Cleanup.CommaListLast | bibtex2html.py:97-99 | for the ` and ` at `k` with none starting after it, the result is the text before `k` with its ` and ` occurrences replaced by `, ` left to right without overlap, then ` and `, then the text after it unchanged |
| Cleanup.CommaListOneAnd | bibtex2html.py:97-99 | a text with exactly one ` and `, such as `Smith, John and Doe, Jane`, is left as it is: names are not reordered |
| Cleanup.CommaListExample | bibtex2html.py:97-99 | `A and B and C` becomes `A, B and C` |
| Cleanup.CleanedTitle | bibtex2html.py:104-113 | `cleanup_title`: the cleaned title has the length of the title |
| Cleanup.TitleShape | bibtex2html.py:110-111 | a cleaned title has the input's length, its first character is not a lower-case letter, and the rest has no upper-case letter |
| Cleanup.TitleIsCapitalized | bibtex2html.py:110-111 | lower-casing before capitalising changes nothing: the cleanup is `capitalize` |
| Cleanup.TitleIdempotent | bibtex2html.py:110-111 | cleaning a cleaned title changes nothing |
| Cleanup.CleanedPage | bibtex2html.py:116-124 | `cleanup_page`: the cleaned page range is never longer than the input |
| Cleanup.PageShrinks | bibtex2html.py:122 | a cleaned page string is never longer, is strictly shorter when it held `--`, and is unchanged without `--` |
| Cleanup.PageExamples | bibtex2html.py:122 | `1--5` becomes `1-5` and `1---5` becomes `1--5` |
| Crossref.PutSpec | bibtex2html.py:198 | assigning into the macro table replaces the value in place for a known name and appends a new name at the end |
| Crossref.PutNames | bibtex2html.py:198 | after the assignment the table names what it named before plus the new name, each once |
| Crossref.BuildMacroTable | bibtex2html.py:188-198 | the macro loop computes `Macros` of the entries |
| Crossref.MacroNames | bibtex2html.py:188-198 | the macro table names each macro once, and names exactly the keys cut from the ids of `@string` entries |
| Crossref.MacroLastWins | bibtex2html.py:198 | the last `@string` definition of a name gives that name's text |
| Crossref.BlankSpec | bibtex2html.py:206 | after blanking every character is allowed, and allowed characters are kept in place |
| Crossref.CollapsePrefixSpec | bibtex2html.py:207 | collapsing leaves only single spaces as whitespace and introduces no other character |
| Crossref.CollapseIdempotent | bibtex2html.py:207 | collapsing a collapsed text changes nothing |
| Crossref.CanonicalShape | bibtex2html.py:200-208 | a canonical title holds only ASCII letters, digits, `.`, `(`, `)` and single spaces |
| Crossref.CanonicalStable | bibtex2html.py:200-208 | a single-spaced title of allowed characters that contains no upper-cased macro name is its own canonical form |
| Crossref.Canonicalize | bibtex2html.py:200-208 | the substitution loop and the two regular expressions compute `CanonicalTitle` |
| Crossref.CollectProceedings | bibtex2html.py:210-221 | the proceedings loop computes the table or the `KeyError` of the entries |
| Crossref.ExtractCrossref | bibtex2html.py:182-222 | `extract_crossref` on the lines of a file computes `CrossrefsOf` |
| Crossref.RecordShape | bibtex2html.py:215-219 | a record has `crossref_title` set to the canonical title, no `title`, `type` or `id`, and every other field of the proceedings unchanged |
| Crossref.CrossrefError | bibtex2html.py:216 | the table fails exactly when some proceedings has no `title`, and then with `KeyError("title")` |
| Crossref.CrossrefKeys | bibtex2html.py:211-220 | the keys of the table are exactly the ids of the proceedings entries |
| Crossref.CrossrefLastWins | bibtex2html.py:220 | the last proceedings with a given id gives that id's record |
| Crossref.CrossrefRecords | bibtex2html.py:215-220 | every record lacks `type`, `id` and `title`, and has a `crossref_title` of only allowed characters and single spaces |
| Crossref.CrossrefStopsAt | bibtex2html.py:216 | once a `KeyError` has been raised, the later entries do not matter |
| Crossref.ReplaceCrossref | bibtex2html.py:225-226 | `replace_crossref`: a record that comes back is one of the table's records; a text that comes back is the value itself |
| Translate.AugmentByLookup | bibtex2html.py:242-245 | the merge does inline what `replace_crossref` does: an entry with a `crossref` field is merged with the record that lookup returns, or left alone when the lookup returns the text; an entry without one is left alone |
| Translate.TranslateBibtex | bibtex2html.py:229-259 | the function on the lines of a file computes `TranslateOf` |
| Translate.MergeCrossrefs | bibtex2html.py:239-246 | the merge loop gives each entry augmented with its proceedings, in order |
| Translate.CleanupAll | bibtex2html.py:255-257 | the cleanup loop cleans every kept entry in place |
| Translate.CleanEntry | bibtex2html.py:256-257 | one entry gets a cleaned author and title |
| Translate.AugmentSpec | bibtex2html.py:242-245 | a resolved crossref adds the record's fields, whose values win; an unresolvable crossref leaves the entry unchanged; fields not in the record are kept |
| Translate.AugmentKeepsOwn | bibtex2html.py:245 | a merge with records that lack `type`, `id` and `title` never changes those three fields |
| Translate.AugmentMembers | bibtex2html.py:239-246 | every merged entry is the merge of some input entry |
| Translate.SelectedMembers | bibtex2html.py:249-252 | an entry is kept exactly when it is an input entry of type `inproceedings` with a non-empty author and title |
| Translate.CleanSpec | bibtex2html.py:255-257 | cleaning keeps the keys, cleans author and title, and leaves every other field alone |
| Translate.TranslatedMembers | bibtex2html.py:239-259 | a result is exactly the cleanup of a merged `inproceedings` entry with a non-empty author and title |
| Translate.TranslatedShape | bibtex2html.py:249-257 | every result has type `inproceedings` and an author and title that are cleanups of non-empty texts |
| Translate.TranslatedAppend | bibtex2html.py:239-259 | translation works entry by entry: translating two blocks is translating each, so input order is kept |
| Translate.FilterAppend | bibtex2html.py:249-252 | the filters work entry by entry and keep order |
| Program.CollectCrossref | bibtex2html.py:321-323 | the fold over the files computes `Union` of the per-file tables |
| Program.MergeTables | bibtex2html.py:321-323 | the loop gives the union of the per-file tables, or the first file's `KeyError` |
| Program.FileTable | bibtex2html.py:323 | one file's proceedings table |
| Program.TranslateAll | bibtex2html.py:327-329 | the `extend` loop concatenates the translated entries of the files in order |
| Program.AppendListings | bibtex2html.py:327-329 | the loop gives the concatenation of the per-file listings |
| Program.FileEntries | bibtex2html.py:329 | one file's translated entries |
| Program.Run | bibtex2html.py:321-329 | `main` without I/O computes `Listing` of the files |
| Program.UnionStopsAt | bibtex2html.py:323 | once a file raised `KeyError`, later files do not matter |
| Program.UnionError | bibtex2html.py:321-323 | the fold fails exactly when some file's table fails, and with the first such error |
| Program.FileError | bibtex2html.py:216 | a file can only fail with `KeyError("title")` |
| Program.UnionKeys | bibtex2html.py:321-323 | the merged table's keys are exactly those of the files' tables |
| Program.UnionLastWins | bibtex2html.py:323 | for an id defined in several files, the last file's record wins |
| Program.UnionFrom | bibtex2html.py:323 | every merged record is some file's record for that id |
| Program.UnionRecords | bibtex2html.py:321-323 | every merged record lacks `type`, `id` and `title` and has a canonical `crossref_title` |
| Program.UnionKeepsOwn | bibtex2html.py:245 | merging with the cross-file table never changes an entry's `type`, `id` or `title` |
| Program.ConcatTranslated | bibtex2html.py:327-329 | concatenating per-file translations is translating the concatenated entries |
| Program.ListingIsTranslated | bibtex2html.py:327-329 | the whole listing is the translation of all files' entries in file order |

## Left out

- Reading files (`open`, `readlines`, `read`): a file is given as its list of lines.
- `sys.argv` handling in `main`: the file names and their comma split are left out, and the files are given as a list.
- `print_html` is left out. It renders and prints. As written, its `Template`/`tempalte` typos mean the template is printed unsubstituted, and `years[0]` fails on an empty list.
- `date.today()` is left out because it reads the clock.
- `copy.deepcopy` is left out. With value semantics a copy and the original cannot be told apart.
- The unused locals `number`, `flag`, `i` and `separator` are left out.
- `lower`, `upper` and `capitalize` act on ASCII letters only. Python's Unicode case mapping is not modelled.
- The whitespace of `str.strip()` and of the regex `\s` is the finite set of characters Python treats as whitespace. No regex engine is modelled. The two `re.sub` calls are a character test followed by run collapsing.
- `str.replace` with an empty pattern, which arises for a macro named by an empty string, follows Python: the replacement goes before every character and at the end.
- The in-place updates (`del d[...]`, `dictlist[i][...] = ...`, `keydict[key] = value`) are modelled as new values assigned to the loop's variables. The source shares no dictionary between those updates and a later read, so nothing observable is lost.
- The `KeyError` raised for a proceedings without `title` is a `Result` value. No exception propagates.
- Cleanup.AccentEntity: it is proved for the `u` umlaut with letters around it, not for every row of the replacement table. Cleanup.AuthorHasNoBraces states the brace and dot removal for every input.
- Behaviour that neither the code nor the model has:
  - accepting `article` entries (only `inproceedings` entries are kept);
  - mapping `journal` to `booktitle`;
  - reordering "Last, First" author names;
  - a `class` tag on each entry;
  - case-insensitive macro matching (the upper-cased macro name is replaced literally);
  - storing the canonical proceedings title as `booktitle` (it is stored as `crossref_title`);
  - keeping `&` in that title.
