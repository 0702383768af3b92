/** The Python `str` primitives the bibliography tool is built from, as
    functions over `seq<char>`: find/rfind, partition/rpartition, split on
    one character, non-overlapping replace, strip with a character set and
    ASCII case mapping. */
module PyStr {

  /** True when `pat` occurs in `s` starting at index `i`. */
  predicate OccursAt(s: string, i: int, pat: string) {
    0 <= i && i + |pat| <= |s| && s[i..i + |pat|] == pat
  }

  /** Python's `pat in s`, for a non-empty `pat`. */
  predicate Contains(s: string, pat: string) {
    exists i | 0 <= i <= |s| - |pat| :: OccursAt(s, i, pat)
  }

  lemma OccursAtTail(s: string, j: int, pat: string)
    requires |s| > 0 && 0 <= j
    ensures OccursAt(s[1..], j, pat) <==> OccursAt(s, j + 1, pat)
  {
    if 0 <= j && j + |pat| <= |s| - 1 {
      assert s[1..][j..j + |pat|] == s[j + 1..j + 1 + |pat|];
    }
  }

  /** A one-character pattern occurs exactly where that character is. */
  lemma OccursAtPrefix(a: string, b: string, j: int, pat: string)
    requires 0 <= j && j + |pat| <= |a|
    ensures OccursAt(a + b, j, pat) <==> OccursAt(a, j, pat)
  {
    assert (a + b)[j..j + |pat|] == a[j..j + |pat|];
  }

  lemma OccursAtChar(s: string, j: int, c: char)
    ensures OccursAt(s, j, [c]) <==> 0 <= j < |s| && s[j] == c
  {
    if 0 <= j < |s| {
      assert s[j..j + 1] == [s[j]];
    }
  }

  /** A pattern holding a character that `s` lacks does not occur in `s`. */
  lemma AbsentChar(s: string, pat: string, c: char)
    requires c in pat && c !in s
    ensures !Contains(s, pat)
  {
    forall i | 0 <= i <= |s| - |pat|
      ensures !OccursAt(s, i, pat)
    {
      var k :| 0 <= k < |pat| && pat[k] == c;
      assert s[i..i + |pat|][k] == s[i + k];
    }
  }

  /** The first index from `i` on holding `c`, or `|s|` when there is none. */
  function FirstFrom(s: string, c: char, i: nat): (k: nat)
    requires i <= |s|
    ensures i <= k <= |s|
    decreases |s| - i
  {
    if i == |s| || s[i] == c then i else FirstFrom(s, c, i + 1)
  }

  /** `FirstFrom` stops at a `c`, and no index it passes over holds `c`. */
  lemma {:induction false} FirstFromSkips(s: string, c: char, i: nat)
    requires i <= |s|
    ensures FirstFrom(s, c, i) < |s| ==> s[FirstFrom(s, c, i)] == c
    ensures forall j :: i <= j < FirstFrom(s, c, i) ==> s[j] != c
    decreases |s| - i
  {
    if i < |s| && s[i] != c {
      FirstFromSkips(s, c, i + 1);
    }
  }

  /** The last index below `m` holding `c`, or -1 when there is none. */
  function LastBelow(s: string, c: char, m: nat): (k: int)
    requires m <= |s|
    ensures -1 <= k < m
  {
    if m == 0 then -1 else if s[m - 1] == c then m - 1 else LastBelow(s, c, m - 1)
  }

  /** `LastBelow` stops at a `c`, and no index it passes over holds `c`. */
  lemma {:induction false} LastBelowSkips(s: string, c: char, m: nat)
    requires m <= |s|
    ensures LastBelow(s, c, m) >= 0 ==> s[LastBelow(s, c, m)] == c
    ensures forall j :: LastBelow(s, c, m) < j < m ==> s[j] != c
  {
    if m > 0 && s[m - 1] != c {
      LastBelowSkips(s, c, m - 1);
    }
  }

  /** Python's `s.partition(sep)` for a one-character `sep`: split at the
      first `c`; when there is none, `(s, "", "")`. */
  function Partition(s: string, c: char): (string, string, string) {
    var k := FirstFrom(s, c, 0);
    if k == |s| then (s, [], []) else (s[..k], [c], s[k + 1..])
  }

  /** The three parts of `s.partition(c)` make up `s`; the middle one is
      `c` exactly when `c` occurs, and the first part holds no `c`. */
  lemma PartitionSpec(s: string, c: char)
    ensures var r := Partition(s, c);
      && r.0 + r.1 + r.2 == s
      && (r.1 == [c] <==> c in s)
      && (r.1 == [] <==> c !in s)
      && c !in r.0
      && (r.1 == [] ==> r.0 == s && r.2 == [])
  {
    var k := FirstFrom(s, c, 0);
    FirstFromSkips(s, c, 0);
    if k < |s| {
      assert s == s[..k] + [c] + s[k + 1..];
    }
  }

  /** Python's `s.rpartition(sep)` for a one-character `sep`: split at the
      last `c`; when there is none, `("", "", s)`. */
  function RPartition(s: string, c: char): (string, string, string) {
    var k := LastBelow(s, c, |s|);
    if k < 0 then ([], [], s) else (s[..k], [c], s[k + 1..])
  }

  /** The three parts of `s.rpartition(c)` make up `s`; the middle one is
      `c` exactly when `c` occurs, and the last part holds no `c`. */
  lemma RPartitionSpec(s: string, c: char)
    ensures var r := RPartition(s, c);
      && r.0 + r.1 + r.2 == s
      && (r.1 == [c] <==> c in s)
      && (r.1 == [] <==> c !in s)
      && c !in r.2
      && (r.1 == [] ==> r.0 == [] && r.2 == s)
  {
    var k := LastBelow(s, c, |s|);
    LastBelowSkips(s, c, |s|);
    if k >= 0 {
      RPartitionAt(s, c, k);
      assert c in s;
    } else {
      assert c !in s;
    }
  }

  lemma RPartitionAt(s: string, c: char, k: nat)
    requires k < |s| && s[k] == c
    requires forall j :: k < j < |s| ==> s[j] != c
    ensures s == s[..k] + [c] + s[k + 1..]
    ensures c !in s[k + 1..]
  {
    var t := s[k + 1..];
    assert forall j :: 0 <= j < |t| ==> t[j] == s[k + 1 + j];
  }


  /** The last index at most `m` where `pat` occurs, or -1. */
  function LastAt(s: string, pat: string, m: int): (k: int)
    requires m < |s|
    ensures k == -1 || 0 <= k <= m
    decreases m + 1
  {
    if m < 0 then -1 else if OccursAt(s, m, pat) then m else LastAt(s, pat, m - 1)
  }

  /** An occurrence at `k` with none after it up to `m` is the one `LastAt`
      finds. */
  lemma LastAtIs(s: string, pat: string, m: int, k: nat)
    requires m < |s| && k <= m && OccursAt(s, k, pat)
    requires forall j :: k < j <= m ==> !OccursAt(s, j, pat)
    ensures LastAt(s, pat, m) == k
  {
    LastAtSpec(s, pat, m);
  }

  /** `LastAt` stops at an occurrence, and there is none between it and `m`. */
  lemma {:induction false} LastAtSpec(s: string, pat: string, m: int)
    requires m < |s|
    ensures LastAt(s, pat, m) >= 0 ==> OccursAt(s, LastAt(s, pat, m), pat)
    ensures forall j :: LastAt(s, pat, m) < j <= m ==> !OccursAt(s, j, pat)
    decreases m + 1
  {
    if m >= 0 && !OccursAt(s, m, pat) {
      LastAtSpec(s, pat, m - 1);
    }
  }

  /** Python's `s.rpartition(pat)` for a non-empty pattern: split at the
      last occurrence; when there is none, `("", "", s)`. */
  function RPartitionStr(s: string, pat: string): (string, string, string)
    requires pat != []
  {
    var k := LastAt(s, pat, |s| - |pat|);
    if k < 0 then ([], [], s) else (s[..k], pat, s[k + |pat|..])
  }

  /** The three parts make up `s`; the middle one is `pat` exactly when it
      occurs, and then the cut is at an occurrence with none after it, even
      one overlapping the separator; the last part holds no occurrence. */
  lemma RPartitionStrSpec(s: string, pat: string)
    requires pat != []
    ensures var r := RPartitionStr(s, pat);
      && r.0 + r.1 + r.2 == s
      && (r.1 == pat <==> Contains(s, pat))
      && (r.1 == [] <==> !Contains(s, pat))
      && !Contains(r.2, pat)
      && (r.1 == [] ==> r.0 == [] && r.2 == s)
      && (r.1 == pat ==> OccursAt(s, |r.0|, pat))
      && (r.1 == pat ==> forall j :: |r.0| < j <= |s| - |pat| ==> !OccursAt(s, j, pat))
  {
    var k := LastAt(s, pat, |s| - |pat|);
    LastAtSpec(s, pat, |s| - |pat|);
    if k >= 0 {
      assert |s[..k]| == k;
      assert s == s[..k] + pat + s[k + |pat|..];
      AfterLast(s, pat, k);
    } else {
      assert !Contains(s, pat);
    }
  }

  /** Past the last occurrence of `pat` there is none. */
  lemma AfterLast(s: string, pat: string, k: nat)
    requires pat != [] && OccursAt(s, k, pat)
    requires forall j :: k < j <= |s| - |pat| ==> !OccursAt(s, j, pat)
    ensures !Contains(s[k + |pat|..], pat)
  {
    var t := s[k + |pat|..];
    forall j | 0 <= j <= |t| - |pat| ensures !OccursAt(t, j, pat) {
      assert t[j..j + |pat|] == s[k + |pat| + j..k + |pat| + j + |pat|];
      assert !OccursAt(s, k + |pat| + j, pat);
    }
  }

  /** Python's `sep.join(parts)` for a one-character separator. */
  function JoinWith(parts: seq<string>, c: char): string
    requires |parts| >= 1
  {
    if |parts| == 1 then parts[0] else parts[0] + [c] + JoinWith(parts[1..], c)
  }

  /** Joining one more piece appends the separator and that piece. */
  lemma {:induction false} JoinWithSnoc(parts: seq<string>, x: string, c: char)
    requires |parts| >= 1
    ensures JoinWith(parts + [x], c) == JoinWith(parts, c) + [c] + x
  {
    if |parts| > 1 {
      assert (parts + [x])[1..] == parts[1..] + [x];
      JoinWithSnoc(parts[1..], x, c);
    }
  }

  /** Python's `s.split(c)` for a one-character separator: the maximal
      pieces of `s` free of `c`; there is always at least one piece. */
  function Split(s: string, c: char): (parts: seq<string>)
    ensures |parts| >= 1
    decreases |s|
  {
    var k := FirstFrom(s, c, 0);
    if k == |s| then [s] else [s[..k]] + Split(s[k + 1..], c)
  }

  /** The pieces of `s.split(c)` hold no `c` and joined with `c` give `s`. */
  lemma SplitSpec(s: string, c: char)
    ensures forall k :: 0 <= k < |Split(s, c)| ==> c !in Split(s, c)[k]
    ensures JoinWith(Split(s, c), c) == s
  {
    SplitPiecesFree(s, c);
    SplitJoins(s, c);
  }

  /** No piece of `s.split(c)` holds `c`. */
  lemma {:induction false} SplitPiecesFree(s: string, c: char)
    ensures forall k :: 0 <= k < |Split(s, c)| ==> c !in Split(s, c)[k]
    decreases |s|
  {
    var k := FirstFrom(s, c, 0);
    FirstFromSkips(s, c, 0);
    if k < |s| {
      var head, tail := s[..k], Split(s[k + 1..], c);
      SplitPiecesFree(s[k + 1..], c);
      assert Split(s, c) == [head] + tail;
      assert forall j :: 0 <= j < |head| ==> head[j] == s[j];
    }
  }

  /** Joining the pieces of `s.split(c)` with `c` gives `s` back. */
  lemma {:induction false} SplitJoins(s: string, c: char)
    ensures JoinWith(Split(s, c), c) == s
    decreases |s|
  {
    var k := FirstFrom(s, c, 0);
    if k < |s| {
      var head, tail := s[..k], Split(s[k + 1..], c);
      SplitJoins(s[k + 1..], c);
      FirstFromSkips(s, c, 0);
      assert Split(s, c) == [head] + tail;
      assert ([head] + tail)[1..] == tail;
      assert s == head + [c] + s[k + 1..];
    }
  }

  /** Splitting a join of `c`-free pieces gives the pieces back. */
  lemma {:induction false} SplitJoin(parts: seq<string>, c: char)
    requires |parts| >= 1
    requires forall k :: 0 <= k < |parts| ==> c !in parts[k]
    ensures Split(JoinWith(parts, c), c) == parts
  {
    var s := JoinWith(parts, c);
    if |parts| == 1 {
      FirstAbsent(s, c);
    } else {
      var rest := JoinWith(parts[1..], c);
      assert s == parts[0] + [c] + rest;
      FirstAt(s, c, parts[0], rest);
      assert s[..|parts[0]|] == parts[0] && s[|parts[0]| + 1..] == rest;
      SplitJoin(parts[1..], c);
    }
  }

  /** The first `c` of `a + [c] + b` is at `|a|` when `a` lacks `c`. */
  lemma FirstAt(s: string, c: char, a: string, b: string)
    requires s == a + [c] + b && c !in a
    ensures FirstFrom(s, c, 0) == |a|
  {
    FirstFromSkips(s, c, 0);
    assert s[|a|] == c;
    assert forall j :: 0 <= j < |a| ==> s[j] == a[j];
  }

  /** `FirstFrom` finds nothing in a text without `c`. */
  lemma FirstAbsent(s: string, c: char)
    requires c !in s
    ensures FirstFrom(s, c, 0) == |s|
  {
    FirstFromSkips(s, c, 0);
  }

  /** The partition of `a + [c] + b` is `(a, [c], b)` when `a` lacks `c`. */
  lemma PartitionAt(s: string, c: char, a: string, b: string)
    requires s == a + [c] + b && c !in a
    ensures Partition(s, c) == (a, [c], b)
  {
    FirstAt(s, c, a, b);
    assert s[..|a|] == a && s[|a| + 1..] == b;
  }

  /** Python's `s.replace("", rep)`: `rep` before every character and at the end. */
  function Interleave(s: string, rep: string): string {
    if s == [] then rep else rep + [s[0]] + Interleave(s[1..], rep)
  }

  /** Python's `s.replace(pat, rep)`: every non-overlapping occurrence of
      `pat`, scanning left to right, replaced by `rep`. */
  function Replace(s: string, pat: string, rep: string): string
    decreases |s|
  {
    if pat == [] then Interleave(s, rep)
    else if |s| < |pat| then s
    else if s[..|pat|] == pat then rep + Replace(s[|pat|..], pat, rep)
    else [s[0]] + Replace(s[1..], pat, rep)
  }

  /** Replacing a pattern that does not occur changes nothing. */
  lemma {:induction false} ReplaceAbsent(s: string, pat: string, rep: string)
    requires pat != [] && !Contains(s, pat)
    ensures Replace(s, pat, rep) == s
    decreases |s|
  {
    if |s| >= |pat| {
      assert !OccursAt(s, 0, pat);
      assert !Contains(s[1..], pat) by {
        forall j | 0 <= j <= |s| - 1 - |pat| ensures !OccursAt(s[1..], j, pat) {
          OccursAtTail(s, j, pat);
        }
      }
      ReplaceAbsent(s[1..], pat, rep);
    }
  }

  /** A character that the replacement text lacks is absent afterwards if it
      was absent before, or if it is itself the whole pattern. */
  lemma {:induction false} ReplaceAvoids(s: string, pat: string, rep: string, c: char)
    requires c !in rep
    requires c !in s || pat == [c]
    ensures c !in Replace(s, pat, rep)
    decreases |s|
  {
    if pat == [] {
      InterleaveAvoids(s, rep, c);
    } else if |s| < |pat| {
    } else if s[..|pat|] == pat {
      ReplaceAvoids(s[|pat|..], pat, rep, c);
    } else {
      if pat == [c] { assert s[..1] == [s[0]]; }
      ReplaceAvoids(s[1..], pat, rep, c);
    }
  }

  lemma {:induction false} InterleaveAvoids(s: string, rep: string, c: char)
    requires c !in rep && c !in s
    ensures c !in Interleave(s, rep)
  {
    if s != [] { InterleaveAvoids(s[1..], rep, c); }
  }

  /** A replacement no longer than its pattern never lengthens the text; it
      shortens it when the pattern occurs and the replacement is shorter. */
  lemma {:induction false} ReplaceShrinks(s: string, pat: string, rep: string)
    requires pat != [] && |rep| <= |pat|
    ensures |Replace(s, pat, rep)| <= |s|
    ensures Contains(s, pat) && |rep| < |pat| ==> |Replace(s, pat, rep)| < |s|
    decreases |s|
  {
    if |s| < |pat| {
    } else if s[..|pat|] == pat {
      ReplaceShrinks(s[|pat|..], pat, rep);
    } else {
      assert Contains(s, pat) ==> Contains(s[1..], pat) by {
        if Contains(s, pat) {
          var i :| 0 <= i <= |s| - |pat| && OccursAt(s, i, pat);
          assert i != 0;
          OccursAtTail(s, i - 1, pat);
        }
      }
      ReplaceShrinks(s[1..], pat, rep);
    }
  }

  /** The first `n` replacements `(pat, rep)` of `table` applied one
      after another, in order. */
  function ReplaceSteps(s: string, table: seq<(string, string)>, n: nat): string
    requires n <= |table|
  {
    if n == 0 then s
    else Replace(ReplaceSteps(s, table, n - 1), table[n - 1].0, table[n - 1].1)
  }

  /** Every replacement of `table` applied, in order. */
  function ReplaceAll(s: string, table: seq<(string, string)>): string {
    ReplaceSteps(s, table, |table|)
  }

  /** After a replacement sequence, a character is absent if some step
      deletes it as a one-character pattern and no step from there on puts
      it back. */
  lemma {:induction false} ReplaceStepsAvoid(s: string, table: seq<(string, string)>, n: nat, j: nat, c: char)
    requires j < n <= |table| && table[j].0 == [c]
    requires forall k :: j <= k < n ==> c !in table[k].1
    ensures c !in ReplaceSteps(s, table, n)
  {
    if j < n - 1 {
      ReplaceStepsAvoid(s, table, n - 1, j, c);
    }
    ReplaceAvoids(ReplaceSteps(s, table, n - 1), table[n - 1].0, table[n - 1].1, c);
  }

  /** A replacement sequence none of whose patterns occurs is the identity. */
  lemma {:induction false} ReplaceStepsAbsent(s: string, table: seq<(string, string)>, n: nat)
    requires n <= |table|
    requires forall k :: 0 <= k < n ==> table[k].0 != [] && !Contains(s, table[k].0)
    ensures ReplaceSteps(s, table, n) == s
  {
    if n > 0 {
      ReplaceStepsAbsent(s, table, n - 1);
      ReplaceAbsent(s, table[n - 1].0, table[n - 1].1);
    }
  }

  /** The steps from `i` to `n` of a replacement sequence change nothing
      when none of their patterns occurs in the text reached at step `i`. */
  lemma {:induction false} ReplaceStepsSkip(s: string, table: seq<(string, string)>, i: nat, n: nat)
    requires i <= n <= |table|
    requires forall k :: i <= k < n ==> table[k].0 != [] && !Contains(ReplaceSteps(s, table, i), table[k].0)
    ensures ReplaceSteps(s, table, n) == ReplaceSteps(s, table, i)
  {
    if i < n {
      ReplaceStepsSkip(s, table, i, n - 1);
      ReplaceAbsent(ReplaceSteps(s, table, i), table[n - 1].0, table[n - 1].1);
    }
  }

  /** A pattern that occurs in `a + pat + b` only right after `a` is
      replaced there and nowhere else. */
  lemma {:induction false} ReplaceOnce(a: string, pat: string, rep: string, b: string)
    requires pat != [] && !Contains(b, pat)
    requires forall i :: 0 <= i < |a| ==> !OccursAt(a + pat + b, i, pat)
    ensures Replace(a + pat + b, pat, rep) == a + rep + b
    decreases |a|
  {
    var s := a + pat + b;
    if a == [] {
      assert s[..|pat|] == pat && s[|pat|..] == b;
      ReplaceAbsent(b, pat, rep);
    } else {
      assert !OccursAt(s, 0, pat);
      assert s[1..] == a[1..] + pat + b;
      forall i | 0 <= i < |a| - 1 ensures !OccursAt(a[1..] + pat + b, i, pat) {
        OccursAtTail(s, i, pat);
      }
      ReplaceOnce(a[1..], pat, rep, b);
      assert a + rep + b == [a[0]] + (a[1..] + rep + b);
    }
  }

  /** The first index from `i` on whose character is not in `cs`, or `|s|`. */
  function LeadFrom(s: string, cs: set<char>, i: nat): (k: nat)
    requires i <= |s|
    ensures i <= k <= |s|
    decreases |s| - i
  {
    if i < |s| && s[i] in cs then LeadFrom(s, cs, i + 1) else i
  }

  /** `LeadFrom` stops at a character outside `cs`, and every character it
      skips is in `cs`. */
  lemma {:induction false} LeadFromSkips(s: string, cs: set<char>, i: nat)
    requires i <= |s|
    ensures LeadFrom(s, cs, i) == |s| || s[LeadFrom(s, cs, i)] !in cs
    ensures forall j :: i <= j < LeadFrom(s, cs, i) ==> s[j] in cs
    decreases |s| - i
  {
    if i < |s| && s[i] in cs {
      LeadFromSkips(s, cs, i + 1);
    }
  }

  /** The number of leading characters of `s` that belong to `cs`. */
  function LeadCount(s: string, cs: set<char>): (k: nat)
    ensures k <= |s|
  {
    LeadFrom(s, cs, 0)
  }

  /** Every character before `LeadCount` is in `cs`, and the one at it is not. */
  lemma LeadCountSkips(s: string, cs: set<char>)
    ensures LeadCount(s, cs) == |s| || s[LeadCount(s, cs)] !in cs
    ensures forall i :: 0 <= i < LeadCount(s, cs) ==> s[i] in cs
  {
    LeadFromSkips(s, cs, 0);
  }

  /** The largest index up to `m` whose preceding character is not in
      `cs`, or 0. */
  function KeptTo(s: string, cs: set<char>, m: nat): (k: nat)
    requires m <= |s|
    ensures k <= m
  {
    if m > 0 && s[m - 1] in cs then KeptTo(s, cs, m - 1) else m
  }

  /** `KeptTo` stops after a character outside `cs`, and every character it
      drops is in `cs`. */
  lemma {:induction false} KeptToDrops(s: string, cs: set<char>, m: nat)
    requires m <= |s|
    ensures KeptTo(s, cs, m) == 0 || s[KeptTo(s, cs, m) - 1] !in cs
    ensures forall j :: KeptTo(s, cs, m) <= j < m ==> s[j] in cs
  {
    if m > 0 && s[m - 1] in cs {
      KeptToDrops(s, cs, m - 1);
    }
  }

  /** The length of `s` once its trailing characters in `cs` are dropped. */
  function KeptEnd(s: string, cs: set<char>): (m: nat)
    ensures m <= |s|
  {
    KeptTo(s, cs, |s|)
  }

  /** Every character from `KeptEnd` on is in `cs`, and the one before it is not. */
  lemma KeptEndDrops(s: string, cs: set<char>)
    ensures KeptEnd(s, cs) == 0 || s[KeptEnd(s, cs) - 1] !in cs
    ensures forall i :: KeptEnd(s, cs) <= i < |s| ==> s[i] in cs
  {
    KeptToDrops(s, cs, |s|);
  }

  /** Python's `s.lstrip(cs)`. */
  function LStrip(s: string, cs: set<char>): string {
    s[LeadCount(s, cs)..]
  }

  /** Python's `s.rstrip(cs)`. */
  function RStrip(s: string, cs: set<char>): string {
    s[..KeptEnd(s, cs)]
  }

  /** No character of `cs` at either end. */
  predicate Trimmed(s: string, cs: set<char>) {
    s == [] || (s[0] !in cs && s[|s| - 1] !in cs)
  }

  /** Python's `s.strip(cs)`: the longest infix free of `cs` at both ends. */
  function Strip(s: string, cs: set<char>): string {
    RStrip(LStrip(s, cs), cs)
  }

  /** Where the strip result starts in `s`. */
  function StripStart(s: string, cs: set<char>): nat {
    LeadCount(s, cs)
  }

  /** `s.strip(cs)` is the infix of `s` at `StripStart`, and exactly the
      characters around it were removed. */
  lemma StripShape(s: string, cs: set<char>)
    ensures Trimmed(Strip(s, cs), cs)
    ensures StripStart(s, cs) + |Strip(s, cs)| <= |s|
    ensures Strip(s, cs) == s[StripStart(s, cs)..StripStart(s, cs) + |Strip(s, cs)|]
    ensures forall i :: 0 <= i < StripStart(s, cs) ==> s[i] in cs
    ensures forall i :: StripStart(s, cs) + |Strip(s, cs)| <= i < |s| ==> s[i] in cs
  {
    var k := LeadCount(s, cs);
    var l := s[k..];
    var m := KeptEnd(l, cs);
    LeadCountSkips(s, cs);
    KeptEndDrops(l, cs);
    assert Strip(s, cs) == l[..m] == s[k..k + m];
    forall i | k + m <= i < |s| ensures s[i] in cs {
      assert s[i] == l[i - k];
    }
  }

  /** Every character of a strip result comes from the stripped text. */
  lemma StripChars(s: string, cs: set<char>, c: char)
    requires c in Strip(s, cs)
    ensures c in s
  {
    StripShape(s, cs);
  }

  /** The leading count and kept end are the only indices with their
      defining properties. */
  lemma LeadCountAt(s: string, cs: set<char>, a: nat)
    requires a <= |s|
    requires forall i :: 0 <= i < a ==> s[i] in cs
    requires a == |s| || s[a] !in cs
    ensures LeadCount(s, cs) == a
  {
    var k := LeadCount(s, cs);
    LeadCountSkips(s, cs);
    if k < |s| { assert s[k] !in cs; }
    if a < |s| { assert s[a] !in cs; }
  }

  lemma KeptEndAt(s: string, cs: set<char>, m: nat)
    requires m <= |s|
    requires forall i :: m <= i < |s| ==> s[i] in cs
    requires m == 0 || s[m - 1] !in cs
    ensures KeptEnd(s, cs) == m
  {
    var k := KeptEnd(s, cs);
    KeptEndDrops(s, cs);
    if k > 0 { assert s[k - 1] !in cs; }
    if m > 0 { assert s[m - 1] !in cs; }
  }

  /** `s.strip(cs)` is the infix `s[a..b]` when exactly the characters
      outside it, and no character at its ends, belong to `cs`. */
  lemma StripAt(s: string, cs: set<char>, a: nat, b: nat)
    requires a <= b <= |s|
    requires forall i :: 0 <= i < a ==> s[i] in cs
    requires forall i :: b <= i < |s| ==> s[i] in cs
    requires a == b || (s[a] !in cs && s[b - 1] !in cs)
    ensures Strip(s, cs) == s[a..b]
  {
    if a == b {
      forall i | 0 <= i < |s| ensures s[i] in cs {
        if i < a { } else { }
      }
      LeadCountAt(s, cs, |s|);
    } else {
      LeadCountAt(s, cs, a);
      var l := s[a..];
      forall i | b - a <= i < |l| ensures l[i] in cs {
        assert l[i] == s[a + i];
      }
      assert l[b - a - 1] == s[b - 1];
      KeptEndAt(l, cs, b - a);
      assert l[..b - a] == s[a..b];
    }
  }

  /** Stripping a set after right-stripping a subset of it is the same as
      stripping the set directly. */
  lemma StripAfterRStrip(x: string, small: set<char>, big: set<char>)
    requires small <= big
    ensures Strip(RStrip(x, small), big) == Strip(x, big)
  {
    var y := RStrip(x, small);
    var r := Strip(x, big);
    var k := StripStart(x, big);
    StripShape(x, big);
    if r == [] {
      StripAt(y, big, 0, 0);
    } else {
      assert x[k + |r| - 1] == r[|r| - 1];
      KeptEndDrops(x, small);
      assert k + |r| <= |y|;
      assert x[k] == r[0];
      StripAt(y, big, k, k + |r|);
      assert y[k..k + |r|] == x[k..k + |r|];
    }
  }

  /** Stripping ignores a leading character of the stripped set. */
  lemma StripCons(c: char, x: string, cs: set<char>)
    requires c in cs
    ensures Strip([c] + x, cs) == Strip(x, cs)
  {
    var r := Strip(x, cs);
    var a := StripStart(x, cs);
    var t := [c] + x;
    StripShape(x, cs);
    forall i | a + 1 + |r| <= i < |t| ensures t[i] in cs {
      assert t[i] == x[i - 1];
    }
    forall i | 0 < i < a + 1 ensures t[i] in cs {
      assert t[i] == x[i - 1];
    }
    if r != [] {
      assert t[a + 1] == r[0] && t[a + |r|] == r[|r| - 1];
    }
    StripAt(t, cs, a + 1, a + 1 + |r|);
    assert t[a + 1..a + 1 + |r|] == x[a..a + |r|];
  }

  /** A text that starts and ends outside `cs`, followed by more text,
      strips to itself followed by the right-stripped rest. */
  lemma StripHeadThen(p: string, z: string, cs: set<char>)
    requires p != [] && p[0] !in cs && p[|p| - 1] !in cs
    ensures Strip(p + z, cs) == p + RStrip(z, cs)
  {
    var s := p + z;
    var m := KeptEnd(z, cs);
    KeptEndDrops(z, cs);
    var b := |p| + m;
    forall i | b <= i < |s| ensures s[i] in cs {
      assert s[i] == z[i - |p|];
    }
    if m > 0 {
      assert s[b - 1] == z[m - 1];
    } else {
      assert s[b - 1] == p[|p| - 1];
    }
    StripAt(s, cs, 0, b);
    assert s[0..b] == p + z[..m];
  }

  /** ASCII lower- and upper-case mapping; every other character is kept. */
  function LowerChar(c: char): char {
    if 'A' <= c <= 'Z' then (c as int + 32) as char else c
  }

  function UpperChar(c: char): char {
    if 'a' <= c <= 'z' then (c as int - 32) as char else c
  }

  /** Python's `s.lower()` restricted to ASCII. */
  function Lower(s: string): string {
    seq(|s|, i requires 0 <= i < |s| => LowerChar(s[i]))
  }

  /** Python's `s.upper()` restricted to ASCII. */
  function Upper(s: string): string {
    seq(|s|, i requires 0 <= i < |s| => UpperChar(s[i]))
  }

  /** Python's `s.capitalize()` restricted to ASCII: first character
      upper-cased, the rest lower-cased. */
  function Capitalize(s: string): string {
    if s == [] then [] else [UpperChar(s[0])] + Lower(s[1..])
  }

  /** No ASCII upper-case letter. */
  predicate IsLower(s: string) {
    forall i :: 0 <= i < |s| ==> !('A' <= s[i] <= 'Z')
  }

  /** `s.lower()` has no upper-case letter, keeps the length, and
      changes nothing in a text that already has none. */
  lemma LowerSpec(s: string)
    ensures |Lower(s)| == |s|
    ensures IsLower(Lower(s))
    ensures IsLower(s) ==> Lower(s) == s
  {
  }

  /** Lower-casing keeps a text trimmed of characters that are not
      letters. */
  lemma LowerTrimmed(s: string, cs: set<char>)
    requires forall c :: c in cs ==> !('A' <= c <= 'Z') && !('a' <= c <= 'z')
    requires Trimmed(s, cs)
    ensures Trimmed(Lower(s), cs)
  {
    if s != [] {
      assert Lower(s)[0] == LowerChar(s[0]);
      assert Lower(s)[|s| - 1] == LowerChar(s[|s| - 1]);
    }
  }

  /** The characters Python's `str.isspace()` and the `\s` class of `re`
      treat as whitespace. */
  const PyWhitespace: set<char> :=
    {'\t', '\n', '\U{000B}', '\U{000C}', '\r', '\U{001C}', '\U{001D}', '\U{001E}', '\U{001F}', ' ',
     '\U{0085}', '\U{00A0}', '\U{1680}', '\U{2000}', '\U{2001}', '\U{2002}', '\U{2003}', '\U{2004}',
     '\U{2005}', '\U{2006}', '\U{2007}', '\U{2008}', '\U{2009}', '\U{200A}', '\U{2028}', '\U{2029}',
     '\U{202F}', '\U{205F}', '\U{3000}'}
}
