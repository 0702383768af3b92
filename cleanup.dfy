/** The per-field cleanups applied to an article before it is listed:
    `cleanup_author`, `cleanup_title` and `cleanup_page`. */
module Cleanup {
  import opened PyStr

  /** The replacements of `cleanup_author`, in the order they are applied:
      LaTeX accents to HTML entities, `.` to a space, the braces and the
      `\'\` sequence deleted, and a capitalised ` And ` lower-cased. */
  const AuthorTable: seq<(string, string)> := [
    ("\\\"a", "&auml;"),
    ("\\\"A", "&Auml;"),
    ("\\\"e", "&euml;"),
    ("\\\"E", "&Euml;"),
    ("\\\"i", "&iuml;"),
    ("\\\"I", "&Iuml;"),
    ("\\\"o", "&ouml;"),
    ("\\\"O", "&Ouml;"),
    ("\\\"u", "&uuml;"),
    ("\\\"U", "&Uuml;"),
    ("\\'a", "&aacute;"),
    ("\\'A", "&Aacute;"),
    ("\\'e", "&eacute;"),
    ("\\'i", "&iacute;"),
    ("\\'I", "&Iacute;"),
    ("\\'E", "&Eacute;"),
    ("\\'o", "&oacute;"),
    ("\\'O", "&Oacute;"),
    ("\\'u", "&uacute;"),
    ("\\'U", "&Uacute;"),
    ("\\~n", "&ntilde;"),
    ("\\~N", "&Ntilde;"),
    ("\\~a", "&atilde;"),
    ("\\~A", "&Atilde;"),
    ("\\~o", "&otilde;"),
    ("\\~O", "&Otilde;"),
    (".", " "),
    ("\\'\\", ""),
    ("{", ""),
    ("}", ""),
    (" And ", " and ")
  ]

  /** The separator between the last two authors. */
  const And: string := " and "

  /** Every ` and ` before the last one becomes `, `. */
  function CommaList(s: string): string {
    var (before, sep, after) := RPartitionStr(s, And);
    Replace(before, And, ", ") + sep + after
  }

  /** `cleanup_author`: the replacements of the table in order, the
      surrounding whitespace stripped, then the author list rewritten so
      that only the last two names are joined by ` and `. */
  function CleanedAuthor(s: string): string {
    CommaList(Strip(ReplaceAll(s, AuthorTable), PyWhitespace))
  }

  /** `cleanup_title`: lower-cased, then capitalised. */
  function CleanedTitle(s: string): (r: string)
    ensures |r| == |s|
  {
    Capitalize(Lower(s))
  }

  /** `cleanup_page`: each `--` of a page range becomes `-`. */
  function CleanedPage(s: string): (r: string)
    ensures |r| <= |s|
  {
    ReplaceShrinks(s, "--", "-");
    Replace(s, "--", "-")
  }

  /** `cleanup_author`, replacing one table entry at a time. */
  method CleanupAuthor(s0: string) returns (s: string)
    ensures s == CleanedAuthor(s0)
  {
    s := s0;
    var i := 0;
    while i < |AuthorTable|
      invariant 0 <= i <= |AuthorTable|
      invariant s == ReplaceSteps(s0, AuthorTable, i)
    {
      s := Replace(s, AuthorTable[i].0, AuthorTable[i].1);
      i := i + 1;
    }
    s := Strip(s, PyWhitespace);
    var (before, sep, after) := RPartitionStr(s, And);
    before := Replace(before, And, ", ");
    s := before + sep + after;
  }

  // ----- Properties of the author cleanup -----

  /** A text without ` and ` is left as it is by the list rewriting. */
  lemma CommaListSingle(s: string)
    requires !Contains(s, And)
    ensures CommaList(s) == s
  {
    RPartitionStrSpec(s, And);
  }

  /** With ` and ` occurring at `k` and at no later index, even one
      overlapping it, the text is cut at `k`: the part before is rewritten
      by the left-to-right, non-overlapping replacement of ` and ` with
      `, `, and the separator and the text after it are kept. */
  lemma CommaListLast(s: string, k: nat)
    requires OccursAt(s, k, And)
    requires forall j :: k < j <= |s| - |And| ==> !OccursAt(s, j, And)
    ensures CommaList(s) == Replace(s[..k], And, ", ") + And + s[k + |And|..]
  {
    LastAtIs(s, And, |s| - |And|, k);
  }

  /** A text with exactly one ` and ` is left as it is: two names are
      neither rewritten nor reordered. */
  lemma CommaListOneAnd(s: string, k: nat)
    requires OccursAt(s, k, And)
    requires forall j :: 0 <= j <= |s| - |And| && OccursAt(s, j, And) ==> j == k
    ensures CommaList(s) == s
  {
    RPartitionStrSpec(s, And);
    var (before, sep, after) := RPartitionStr(s, And);
    assert Contains(s, And);
    assert s == before + And + after;
    assert s[|before|..|before| + |And|] == And;
    assert OccursAt(s, |before|, And);
    assert !Contains(before, And) by {
      forall j | 0 <= j <= |before| - |And| ensures !OccursAt(before, j, And) {
        OccursAtPrefix(before, And + after, j, And);
        assert s == before + (And + after);
      }
    }
    ReplaceAbsent(before, And, ", ");
  }

  /** Three names joined by ` and ` come out as a comma list with ` and `
      before the last name. */
  lemma CommaListExample()
    ensures CommaList("A and B and C") == "A, B and C"
  {
    var s := "A and B and C";
    assert !OccursAt(s, 8, And);
    assert OccursAt(s, 7, And);
    assert LastAt(s, And, |s| - |And|) == 7;
    assert s[..7] == "A and B" && s[12..] == "C";
    assert RPartitionStr(s, And) == ("A and B", And, "C");
    assert Replace("A and B", And, ", ") == "A, B";
  }

  /** A character that the list rewriting neither had nor introduces is
      not in its result. */
  lemma CommaListAvoids(s: string, c: char)
    requires c !in s && c !in And && c !in ", "
    ensures c !in CommaList(s)
  {
    RPartitionStrSpec(s, And);
    var (before, sep, after) := RPartitionStr(s, And);
    ReplaceAvoids(before, And, ", ", c);
  }

  /** The cleaned author holds no brace and no full stop: braces are
      deleted, full stops become spaces, and nothing later brings them
      back. */
  lemma AuthorHasNoBraces(s: string)
    ensures '{' !in CleanedAuthor(s) && '}' !in CleanedAuthor(s) && '.' !in CleanedAuthor(s)
  {
    var t := ReplaceAll(s, AuthorTable);
    ReplaceStepsAvoid(s, AuthorTable, |AuthorTable|, 26, '.');
    ReplaceStepsAvoid(s, AuthorTable, |AuthorTable|, 28, '{');
    ReplaceStepsAvoid(s, AuthorTable, |AuthorTable|, 29, '}');
    var u := Strip(t, PyWhitespace);
    if '{' in u { StripChars(t, PyWhitespace, '{'); }
    if '}' in u { StripChars(t, PyWhitespace, '}'); }
    if '.' in u { StripChars(t, PyWhitespace, '.'); }
    CommaListAvoids(u, '{');
    CommaListAvoids(u, '}');
    CommaListAvoids(u, '.');
  }

  /** A text of ASCII letters only. */
  predicate Letters(s: string) {
    forall i :: 0 <= i < |s| ==> ('a' <= s[i] <= 'z') || ('A' <= s[i] <= 'Z')
  }

  /** The escape `{\"u}` of an accented `u`, braces included. */
  const UEscape: string := "{\\\"u}"

  /** In a name written `a{\"u}b` with letters around the escape, the
      backslash stands only right after the opening brace. */
  lemma EscapeOnly(a: string, b: string, i: nat)
    requires Letters(a) && Letters(b) && i < |a + UEscape + b|
    ensures (a + UEscape + b)[i] == '\\' ==> i == |a| + 1 && (a + UEscape + b)[i + 2] == 'u'
  {
    var s := a + UEscape + b;
    if i < |a| {
      assert s[i] == a[i];
    } else if i >= |a| + 5 {
      assert s[i] == b[i - |a| - 5];
    }
  }

  /** A three-character pattern that starts with a backslash can occur in
      `a{\"u}b` only at the escape, and only if it ends in `u`. */
  lemma EscapeAt(a: string, b: string, i: int, pat: string)
    requires Letters(a) && Letters(b) && |pat| == 3 && pat[0] == '\\'
    ensures OccursAt(a + UEscape + b, i, pat) ==> i == |a| + 1 && pat[2] == 'u'
  {
    var s := a + UEscape + b;
    if 0 <= i && i + 3 <= |s| {
      assert s[i..i + 3][0] == s[i] && s[i..i + 3][2] == s[i + 2];
      EscapeOnly(a, b, i);
    }
  }

  /** No escape of an accented letter before the `u` one in the table
      occurs in `a{\"u}b`. */
  lemma AccentEarlierAbsent(a: string, b: string, k: nat)
    requires Letters(a) && Letters(b) && k < 8
    ensures AuthorTable[k].0 != [] && !Contains(a + UEscape + b, AuthorTable[k].0)
  {
    var s := a + UEscape + b;
    var pat := AuthorTable[k].0;
    assert |pat| == 3 && pat[0] == '\\' && pat[2] != 'u';
    forall i | 0 <= i <= |s| - |pat| ensures !OccursAt(s, i, pat) {
      EscapeAt(a, b, i, pat);
    }
  }

  /** Replacing the escape of `u` by its entity in `a{\"u}b`. */
  lemma AccentReplaced(a: string, b: string)
    requires Letters(a) && Letters(b)
    ensures Replace(a + UEscape + b, "\\\"u", "&uuml;") == a + "{&uuml;}" + b
  {
    var s := a + UEscape + b;
    var pat, rep := "\\\"u", "&uuml;";
    assert s == (a + "{") + pat + ("}" + b);
    assert '\\' !in "}" + b by {
      forall i | 0 <= i < |"}" + b| ensures ("}" + b)[i] != '\\' {
        if i > 0 { assert ("}" + b)[i] == b[i - 1]; }
      }
    }
    AbsentChar("}" + b, pat, '\\');
    forall i | 0 <= i < |a + "{"| ensures !OccursAt(s, i, pat) {
      EscapeAt(a, b, i, pat);
    }
    ReplaceOnce(a + "{", pat, rep, "}" + b);
    assert (a + "{") + rep + ("}" + b) == a + "{&uuml;}" + b;
  }

  /** The first nine replacements turn the escape into the entity: the
      eight before it do not occur. */
  lemma AccentFirstSteps(a: string, b: string)
    requires Letters(a) && Letters(b)
    ensures ReplaceSteps(a + UEscape + b, AuthorTable, 9) == a + "{&uuml;}" + b
  {
    var s := a + UEscape + b;
    forall k | 0 <= k < 8 ensures AuthorTable[k].0 != [] && !Contains(s, AuthorTable[k].0) {
      AccentEarlierAbsent(a, b, k);
    }
    ReplaceStepsSkip(s, AuthorTable, 0, 8);
    assert AuthorTable[8] == ("\\\"u", "&uuml;");
    AccentReplaced(a, b);
  }

  /** Deleting a character that occurs once. */
  lemma DeleteOnce(a: string, c: char, b: string)
    requires c !in a && c !in b
    ensures Replace(a + [c] + b, [c], "") == a + b
  {
    AbsentChar(b, [c], c);
    forall i | 0 <= i < |a| ensures !OccursAt(a + [c] + b, i, [c]) {
      OccursAtChar(a + [c] + b, i, c);
    }
    ReplaceOnce(a, [c], "", b);
  }

  /** Every pattern between the `u` escape and the braces holds a
      backslash, except the abbreviation dot. */
  lemma MiddlePattern(k: nat)
    requires 9 <= k < 28
    ensures AuthorTable[k].0 != []
    ensures if k == 26 then '.' in AuthorTable[k].0 else '\\' in AuthorTable[k].0
  {
  }

  /** The replacements between the entity and the braces leave
      `a{&uuml;}b` alone. */
  lemma AccentMiddleSteps(a: string, b: string)
    requires Letters(a) && Letters(b)
    ensures ReplaceSteps(a + UEscape + b, AuthorTable, 28) == a + "{&uuml;}" + b
  {
    var s := a + UEscape + b;
    AccentFirstSteps(a, b);
    var t := a + "{&uuml;}" + b;
    assert forall i :: 0 <= i < |t| ==> t[i] != '\\' && t[i] != '.' by {
      forall i | 0 <= i < |t| ensures t[i] != '\\' && t[i] != '.' {
        if i < |a| { assert t[i] == a[i]; }
        else if i >= |a| + 8 { assert t[i] == b[i - |a| - 8]; }
      }
    }
    forall k | 9 <= k < 28 ensures AuthorTable[k].0 != [] && !Contains(t, AuthorTable[k].0) {
      MiddlePattern(k);
      if k == 26 {
        AbsentChar(t, AuthorTable[k].0, '.');
      } else {
        AbsentChar(t, AuthorTable[k].0, '\\');
      }
    }
    ReplaceStepsSkip(s, AuthorTable, 9, 28);
  }

  /** The two braces go, one after the other. */
  lemma BracesDeleted(a: string, b: string)
    requires Letters(a) && Letters(b)
    ensures Replace(Replace(a + "{&uuml;}" + b, "{", ""), "}", "") == a + "&uuml;" + b
  {
    assert '{' !in a && '{' !in "&uuml;}" + b by {
      forall i | 0 <= i < |"&uuml;}" + b| ensures ("&uuml;}" + b)[i] != '{' {
        if i >= 7 { assert ("&uuml;}" + b)[i] == b[i - 7]; }
      }
    }
    assert a + "{&uuml;}" + b == a + ['{'] + ("&uuml;}" + b);
    DeleteOnce(a, '{', "&uuml;}" + b);
    assert '}' !in a + "&uuml;" && '}' !in b by {
      forall i | 0 <= i < |a + "&uuml;"| ensures (a + "&uuml;")[i] != '}' {
        if i < |a| { assert (a + "&uuml;")[i] == a[i]; }
      }
    }
    assert a + ("&uuml;}" + b) == (a + "&uuml;") + ['}'] + b;
    DeleteOnce(a + "&uuml;", '}', b);
  }

  /** A name without a space has no ` And ` to rewrite. */
  lemma NoSpaceNoAnd(v: string)
    requires ' ' !in v
    ensures Replace(v, " And ", " and ") == v && !Contains(v, And)
  {
    AbsentChar(v, " And ", ' ');
    ReplaceAbsent(v, " And ", " and ");
    AbsentChar(v, And, ' ');
  }

  /** After the entity, only the two braces are still in the table: they
      are deleted and nothing else changes. */
  lemma AccentLastSteps(a: string, b: string)
    requires Letters(a) && Letters(b)
    ensures ReplaceAll(a + UEscape + b, AuthorTable) == a + "&uuml;" + b
  {
    AccentMiddleSteps(a, b);
    assert |AuthorTable| == 31 && AuthorTable[28].0 == "{" && AuthorTable[29].0 == "}";
    assert AuthorTable[28].1 == "" && AuthorTable[29].1 == "" && AuthorTable[30] == (" And ", " and ");
    var s, t := a + UEscape + b, a + "{&uuml;}" + b;
    BracesDeleted(a, b);
    var v := a + "&uuml;" + b;
    assert ReplaceSteps(s, AuthorTable, 29) == Replace(t, "{", "");
    assert ReplaceSteps(s, AuthorTable, 30) == v;
    assert ' ' !in v by {
      forall i | 0 <= i < |v| ensures v[i] != ' ' {
        if i < |a| { assert v[i] == a[i]; }
        else if i >= |a| + 6 { assert v[i] == b[i - |a| - 6]; }
      }
    }
    NoSpaceNoAnd(v);
    assert ReplaceSteps(s, AuthorTable, 31) == Replace(v, " And ", " and ");
  }

  /** An accent escape becomes its HTML entity and the braces around it
      disappear: `a{\"u}b` is cleaned to `a&uuml;b`. */
  lemma AccentEntity(a: string, b: string)
    requires Letters(a) && Letters(b) && a != [] && b != []
    ensures CleanedAuthor(a + UEscape + b) == a + "&uuml;" + b
  {
    var t := a + "&uuml;" + b;
    AccentLastSteps(a, b);
    assert t[0] == a[0] && t[|t| - 1] == b[|b| - 1];
    StripHeadThen(t, [], PyWhitespace);
    assert t + [] == t;
    assert ' ' !in t by {
      forall i | 0 <= i < |t| ensures t[i] != ' ' {
        if i < |a| { assert t[i] == a[i]; }
        else if i >= |a| + 6 { assert t[i] == b[i - |a| - 6]; }
      }
    }
    NoSpaceNoAnd(t);
    CommaListSingle(t);
  }

  /** `M{\"u}ller` is cleaned to `M&uuml;ller`. */
  lemma AccentExample()
    ensures CleanedAuthor("M{\\\"u}ller") == "M&uuml;ller"
  {
    AccentEntity("M", "ller");
    assert "M" + UEscape + "ller" == "M{\\\"u}ller";
  }

  // ----- Properties of the title and page cleanups -----

  /** The cleaned title has the length of the title, no lower-case first
      letter and no upper-case letter after it. */
  lemma TitleShape(s: string)
    ensures |CleanedTitle(s)| == |s|
    ensures CleanedTitle(s) != [] ==> !('a' <= CleanedTitle(s)[0] <= 'z')
    ensures CleanedTitle(s) != [] ==> IsLower(CleanedTitle(s)[1..])
  {
    if s != [] {
      LowerSpec(s);
      LowerSpec(Lower(s)[1..]);
      assert CleanedTitle(s)[1..] == Lower(Lower(s)[1..]);
    }
  }

  /** Lower-casing before capitalising changes nothing: the cleaned title
      is the capitalised title. */
  lemma TitleIsCapitalized(s: string)
    ensures CleanedTitle(s) == Capitalize(s)
  {
    if s != [] {
      var l := Lower(s);
      assert UpperChar(l[0]) == UpperChar(s[0]);
      assert l[1..] == Lower(s[1..]);
      LowerSpec(s[1..]);
      LowerSpec(Lower(s[1..]));
    }
  }

  /** Cleaning a cleaned title changes nothing. */
  lemma TitleIdempotent(s: string)
    ensures CleanedTitle(CleanedTitle(s)) == CleanedTitle(s)
  {
  }

  /** The cleaned page range is never longer, is shorter when it held a
      `--`, and is the range itself otherwise. */
  lemma PageShrinks(s: string)
    ensures |CleanedPage(s)| <= |s|
    ensures Contains(s, "--") ==> |CleanedPage(s)| < |s|
    ensures !Contains(s, "--") ==> CleanedPage(s) == s
  {
    ReplaceShrinks(s, "--", "-");
    if !Contains(s, "--") {
      ReplaceAbsent(s, "--", "-");
    }
  }

  /** A page range with `--` gets a single dash; one with `---` keeps
      two, since the occurrences are replaced left to right without
      overlap. */
  lemma PageExamples()
    ensures CleanedPage("1--5") == "1-5"
    ensures CleanedPage("1---5") == "1--5"
  {
  }
}
