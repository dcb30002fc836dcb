/**
 The two textual patches applied to the raw index-data response before it is
 parsed as JSON:

   step 1  re.sub(r'"\s*"\s*', '","', text)   -- SeparateFields
   step 2  text.replace('}{', '},{')          -- SeparateObjects

 Both scan left to right and never let two matches overlap. Text is
 `seq<char>`.
 */
module ResponseRepair {

  // -------------------------------------------------------------------------
  // Characters and filtering

  /** The characters matched by `\s` in a Python `str` pattern: those for
      which `str.isspace()` holds. */
  predicate IsSpace(c: char) {
    || c == ' '
    || '\t' <= c <= '\r'
    || '\U{1C}' <= c <= '\U{1F}'
    || c == '\U{85}' || c == '\U{A0}' || c == '\U{1680}'
    || '\U{2000}' <= c <= '\U{200A}'
    || c == '\U{2028}' || c == '\U{2029}' || c == '\U{202F}'
    || c == '\U{205F}' || c == '\U{3000}'
  }

  /** The characters step 1 can remove or write: quotes, whitespace, commas. */
  predicate IsSeparator(c: char) {
    c == '"' || c == ',' || IsSpace(c)
  }

  /** Every character step 1 cannot touch. */
  predicate IsContent(c: char) {
    !IsSeparator(c)
  }

  predicate IsNotComma(c: char) {
    c != ','
  }

  /** The characters of `s` that satisfy `keep`, in their original order. */
  function Filter(s: seq<char>, keep: char -> bool): (r: seq<char>)
    ensures |r| <= |s|
    ensures forall i :: 0 <= i < |r| ==> keep(r[i])
  {
    if |s| == 0 then []
    else (if keep(s[0]) then [s[0]] else []) + Filter(s[1..], keep)
  }

  lemma {:induction false} FilterAppend(a: seq<char>, b: seq<char>, keep: char -> bool)
    ensures Filter(a + b, keep) == Filter(a, keep) + Filter(b, keep)
    decreases |a|
  {
    if |a| == 0 {
      assert a + b == b;
    } else {
      assert (a + b)[1..] == a[1..] + b;
      FilterAppend(a[1..], b, keep);
    }
  }

  /** Filtering keeps every occurrence of a kept character. */
  lemma {:induction false} FilterCount(s: seq<char>, keep: char -> bool, c: char)
    requires keep(c)
    ensures multiset(Filter(s, keep))[c] == multiset(s)[c]
    decreases |s|
  {
    if |s| > 0 {
      FilterCount(s[1..], keep, c);
      assert s == [s[0]] + s[1..];
    }
  }

  lemma {:induction false} FilterNone(s: seq<char>, keep: char -> bool)
    requires forall i :: 0 <= i < |s| ==> !keep(s[i])
    ensures Filter(s, keep) == []
    decreases |s|
  {
    if |s| > 0 {
      FilterNone(s[1..], keep);
    }
  }

  // -------------------------------------------------------------------------
  // Step 1: the pattern "\s*"\s* and its replacement

  const FieldSeparator: seq<char> := "\",\""

  /** Every character of `s` from index `lo` up to, not including, `hi` is whitespace. */
  predicate SpacesBetween(s: seq<char>, lo: int, hi: int) {
    forall i :: lo <= i < hi && 0 <= i < |s| ==> IsSpace(s[i])
  }

  /** Where a greedy `\s*` started at index `i` of `s` stops. */
  function SpaceEnd(s: seq<char>, i: nat): (e: nat)
    requires i <= |s|
    ensures i <= e <= |s|
    ensures SpacesBetween(s, i, e)
    ensures e == |s| || !IsSpace(s[e])
    decreases |s| - i
  {
    if i == |s| || !IsSpace(s[i]) then i else SpaceEnd(s, i + 1)
  }

  /** A greedy whitespace run ends exactly where whitespace stops. */
  lemma SpaceEndIs(s: seq<char>, i: nat, e: nat)
    requires i <= e <= |s|
    requires SpacesBetween(s, i, e)
    requires e == |s| || !IsSpace(s[e])
    ensures SpaceEnd(s, i) == e
  {
  }

  /** The first `n` characters of `s` are matched in full by `"\s*"\s*`, the
      second quote standing at some index `k`. */
  predicate QuoteRunPrefix(s: seq<char>, n: int) {
    exists k :: 1 <= k < n && QuoteRunSplit(s, k, n)
  }

  predicate QuoteRunSplit(s: seq<char>, k: int, n: int) {
    && 1 <= k < n <= |s|
    && s[0] == '"' && s[k] == '"'
    && SpacesBetween(s, 1, k) && SpacesBetween(s, k + 1, n)
  }

  /** Length of the match of `"\s*"\s*` at the front of `s`, or 0 when the
      pattern does not match there (a match is never shorter than 2). The
      match is followed by the end of text or a non-space. */
  function MatchLength(s: seq<char>): (n: nat)
    ensures n != 0 ==> n >= 2 && QuoteRunPrefix(s, n) && (n == |s| || !IsSpace(s[n]))
  {
    if |s| == 0 || s[0] != '"' then 0
    else
      var k := SpaceEnd(s, 1);
      if k < |s| && s[k] == '"' then
        var n := SpaceEnd(s, k + 1);
        assert QuoteRunSplit(s, k, n);
        n
      else 0
  }

  /** The pattern finds exactly the quote run at the front of `s` that is
      followed by the end of text or a non-space. */
  lemma {:induction false} MatchLengthFinds(s: seq<char>, n: nat)
    requires QuoteRunPrefix(s, n)
    requires n == |s| || !IsSpace(s[n])
    ensures MatchLength(s) == n
  {
    var k :| 1 <= k < n && QuoteRunSplit(s, k, n);
    SpaceEndIs(s, 1, k);
    SpaceEndIs(s, k + 1, n);
  }

  /** Number of replacements step 1 makes (the count `re.subn` reports). */
  function Replacements(s: seq<char>): nat
    decreases |s|
  {
    if |s| == 0 then 0
    else
      var n := MatchLength(s);
      if n == 0 then Replacements(s[1..]) else 1 + Replacements(s[n..])
  }

  /** A match holds nothing but separators: two quotes and whitespace. */
  lemma QuoteRunSeparators(s: seq<char>, n: int)
    requires QuoteRunPrefix(s, n)
    ensures Filter(s[..n], IsContent) == []
  {
    var k :| 1 <= k < n && QuoteRunSplit(s, k, n);
    forall i | 0 <= i < n
      ensures !IsContent(s[..n][i])
    {
      assert s[..n][i] == s[i];
      assert 0 < i < k || k < i ==> IsSpace(s[i]);
    }
    FilterNone(s[..n], IsContent);
  }

  /** A match holds exactly two quotes and no comma. */
  lemma QuoteRunCounts(s: seq<char>, n: int)
    requires QuoteRunPrefix(s, n)
    ensures multiset(s[..n])['"'] == 2
    ensures multiset(s[..n])[','] == 0
  {
    var k :| 1 <= k < n && QuoteRunSplit(s, k, n);
    var a, b := s[1..k], s[k + 1..n];
    forall i | 0 <= i < |a|
      ensures a[i] != '"' && a[i] != ','
    {
      assert a[i] == s[i + 1] && IsSpace(s[i + 1]);
    }
    forall i | 0 <= i < |b|
      ensures b[i] != '"' && b[i] != ','
    {
      assert b[i] == s[i + k + 1] && IsSpace(s[i + k + 1]);
    }
    assert '"' !in a && ',' !in a && '"' !in b && ',' !in b;
    assert s[..n] == [s[0]] + a + [s[k]] + b;
    assert multiset(s[..n]) == multiset([s[0]]) + multiset(a) + multiset([s[k]]) + multiset(b);
  }

  /** Step 1. Scanning from the left, every match of `"\s*"\s*` becomes the
      three characters `","`; every other character is copied. */
  function SeparateFields(s: seq<char>): (r: seq<char>)
    decreases |s|
  {
    if |s| == 0 then []
    else
      var n := MatchLength(s);
      if n == 0 then [s[0]] + SeparateFields(s[1..])
      else FieldSeparator + SeparateFields(s[n..])
  }

  /** Where no quote run starts, step 1 copies the character in front. */
  lemma SeparateFieldsCopies(s: seq<char>)
    requires |s| > 0 && forall j :: !QuoteRunAt(s, 0, j)
    ensures SeparateFields(s) == [s[0]] + SeparateFields(s[1..])
  {
    var n := MatchLength(s);
    if n != 0 {
      var k :| 1 <= k < n && QuoteRunSplit(s, k, n);
      assert QuoteRunAt(s, 0, k);
    }
    CopyUnfold(s);
  }

  /** The front character is copied when it is not a quote, or when the
      quote is followed by neither a quote nor whitespace. */
  lemma SeparateFieldsCopiesFront(s: seq<char>)
    requires |s| > 0
    requires s[0] != '"' || |s| == 1 || (s[1] != '"' && !IsSpace(s[1]))
    ensures SeparateFields(s) == [s[0]] + SeparateFields(s[1..])
  {
  }

  /** Where a match of length `n` starts, step 1 writes `","` and goes on after it. */
  lemma SeparateFieldsReplaces(s: seq<char>, n: nat)
    requires QuoteRunPrefix(s, n)
    requires n == |s| || !IsSpace(s[n])
    ensures SeparateFields(s) == FieldSeparator + SeparateFields(s[n..])
  {
    MatchLengthFinds(s, n);
  }

  /** Step 1 keeps everything except quotes, whitespace and commas, in order. */
  lemma {:induction false} SeparateFieldsKeepsContent(s: seq<char>)
    ensures Filter(SeparateFields(s), IsContent) == Filter(s, IsContent)
    decreases |s|
  {
    if |s| > 0 {
      var n := MatchLength(s);
      if n == 0 {
        SeparateFieldsKeepsContent(s[1..]);
        assert s == [s[0]] + s[1..];
        FilterAppend([s[0]], s[1..], IsContent);
        FilterAppend([s[0]], SeparateFields(s[1..]), IsContent);
      } else {
        SeparateFieldsKeepsContent(s[n..]);
        assert s == s[..n] + s[n..];
        QuoteRunSeparators(s, n);
        FilterAppend(s[..n], s[n..], IsContent);
        FilterAppend(FieldSeparator, SeparateFields(s[n..]), IsContent);
        assert Filter(FieldSeparator, IsContent) == [];
      }
    }
  }

  /** Step 1 unfolded once where no match starts. */
  lemma CopyUnfold(s: seq<char>)
    requires |s| > 0 && MatchLength(s) == 0
    ensures SeparateFields(s) == [s[0]] + SeparateFields(s[1..])
  {
  }

  /** Step 1 keeps the number of quotes, and each replacement adds one comma. */
  lemma {:induction false} SeparateFieldsCounts(s: seq<char>)
    ensures multiset(SeparateFields(s))['"'] == multiset(s)['"']
    ensures multiset(SeparateFields(s))[','] == multiset(s)[','] + Replacements(s)
    decreases |s|
  {
    if |s| > 0 {
      var n := MatchLength(s);
      if n == 0 {
        SeparateFieldsCounts(s[1..]);
        CountsAfterCopy(s);
      } else {
        SeparateFieldsCounts(s[n..]);
        CountsAfterReplace(s, n);
      }
    }
  }

  /** The quotes and commas step 1 outputs for `s` and for `s` without its
      first character differ by that character alone, when no match starts
      there. */
  lemma CountsAfterCopy(s: seq<char>)
    requires |s| > 0 && MatchLength(s) == 0
    ensures multiset(SeparateFields(s)) == multiset([s[0]]) + multiset(SeparateFields(s[1..]))
    ensures multiset(s) == multiset([s[0]]) + multiset(s[1..])
    ensures Replacements(s) == Replacements(s[1..])
  {
    assert s == [s[0]] + s[1..];
  }

  /** A replaced match holds two quotes and no comma, and `","` has two
      quotes and one comma. */
  lemma CountsAfterReplace(s: seq<char>, n: nat)
    requires n == MatchLength(s) > 0
    ensures multiset(SeparateFields(s))['"'] == 2 + multiset(SeparateFields(s[n..]))['"']
    ensures multiset(SeparateFields(s))[','] == 1 + multiset(SeparateFields(s[n..]))[',']
    ensures multiset(s)['"'] == 2 + multiset(s[n..])['"']
    ensures multiset(s)[','] == multiset(s[n..])[',']
    ensures Replacements(s) == 1 + Replacements(s[n..])
  {
    assert s == s[..n] + s[n..];
    QuoteRunCounts(s, n);
    assert multiset(FieldSeparator) == multiset{'"', ',', '"'};
  }

  // -------------------------------------------------------------------------
  // Declarative view of step 1

  /** `s[i]` and `s[j]` are quotes with only whitespace between them. */
  predicate QuoteRunAt(s: seq<char>, i: int, j: int) {
    && 0 <= i < j < |s|
    && s[i] == '"' && s[j] == '"'
    && SpacesBetween(s, i + 1, j)
  }

  /** No two quotes of `s` are separated by whitespace alone. */
  predicate NoQuoteRun(s: seq<char>) {
    forall i, j :: 0 <= i < j < |s| ==> !QuoteRunAt(s, i, j)
  }

  lemma QuoteRunShift(c: char, s: seq<char>, i: int, j: int)
    requires 0 <= i
    ensures QuoteRunAt([c] + s, i + 1, j + 1) <==> QuoteRunAt(s, i, j)
  {
    var t := [c] + s;
    assert forall k :: 0 <= k < |s| ==> t[k + 1] == s[k];
    if 0 <= i < j < |s| {
      if SpacesBetween(s, i + 1, j) {
        forall k | i + 2 <= k < j + 1
          ensures IsSpace(t[k])
        {
          assert t[k] == s[k - 1];
        }
      }
      if SpacesBetween(t, i + 2, j + 1) {
        forall k | i + 1 <= k < j
          ensures IsSpace(s[k])
        {
          assert t[k + 1] == s[k];
        }
      }
    }
  }

  /** A quote run at the front of `s` is found by the pattern. */
  lemma QuoteRunAtFront(s: seq<char>, j: int)
    requires QuoteRunAt(s, 0, j)
    ensures MatchLength(s) != 0
  {
    SpaceEndIs(s, 1, j);
  }

  /** `[c] + s` has no quote run when `s` has none and none starts at `c`. */
  lemma NoQuoteRunCons(c: char, s: seq<char>)
    requires NoQuoteRun(s)
    requires forall j :: !QuoteRunAt([c] + s, 0, j)
    ensures NoQuoteRun([c] + s)
  {
    forall i, j | 0 <= i < j < |s| + 1
      ensures !QuoteRunAt([c] + s, i, j)
    {
      if i >= 1 {
        QuoteRunShift(c, s, i - 1, j - 1);
      }
    }
  }

  lemma NoQuoteRunTail(s: seq<char>)
    requires |s| > 0 && NoQuoteRun(s)
    ensures NoQuoteRun(s[1..])
  {
    assert s == [s[0]] + s[1..];
    forall i, j | 0 <= i < j < |s| - 1
      ensures !QuoteRunAt(s[1..], i, j)
    {
      QuoteRunShift(s[0], s[1..], i, j);
    }
  }

  /** A text in which every quote but a final one is followed directly by a
      character step 1 cannot touch has no quote run. */
  lemma NoQuoteRunWhenQuotesBeforeContent(s: seq<char>)
    requires forall i :: 0 <= i < |s| - 1 && s[i] == '"' ==> IsContent(s[i + 1])
    ensures NoQuoteRun(s)
  {
    forall i, j | 0 <= i < j < |s|
      ensures !QuoteRunAt(s, i, j)
    {
      if s[i] == '"' && j > i + 1 {
        assert !IsSpace(s[i + 1]);
      }
    }
  }

  /** Text that step 1 leaves unchanged is exactly text without a quote run. */
  lemma {:induction false} SeparateFieldsFixedPoints(s: seq<char>)
    ensures SeparateFields(s) == s <==> NoQuoteRun(s)
    decreases |s|
  {
    if |s| > 0 {
      var n := MatchLength(s);
      if n != 0 {
        // the match has a quote or a space at index 1, where the output has ','
        var k :| 1 <= k < n && QuoteRunSplit(s, k, n);
        assert IsSeparator(s[1]) && s[1] != ',';
        assert SeparateFields(s)[1] == ',';
        assert QuoteRunAt(s, 0, k);
      } else {
        SeparateFieldsFixedPoints(s[1..]);
        assert s == [s[0]] + s[1..];
        forall j
          ensures !QuoteRunAt([s[0]] + s[1..], 0, j)
        {
          if QuoteRunAt(s, 0, j) {
            QuoteRunAtFront(s, j);
          }
        }
        if SeparateFields(s[1..]) == s[1..] {
          NoQuoteRunCons(s[0], s[1..]);
        }
        if NoQuoteRun(s) {
          NoQuoteRunTail(s);
        }
      }
    }
  }

  lemma {:induction false} ReplacementsNone(s: seq<char>)
    requires Replacements(s) == 0
    ensures SeparateFields(s) == s
    decreases |s|
  {
    if |s| > 0 {
      ReplacementsNone(s[1..]);
      assert s == [s[0]] + s[1..];
    }
  }

  // -------------------------------------------------------------------------
  // Step 2: '}{' -> '},{'

  const ObjectSeparator: seq<char> := "},{"

  /** No `}` of `s` is immediately followed by `{`. */
  predicate NoBoundary(s: seq<char>) {
    forall i :: 0 <= i < |s| - 1 ==> !(s[i] == '}' && s[i + 1] == '{')
  }

  /** Number of positions where `}` is immediately followed by `{`. */
  function Boundaries(s: seq<char>): nat
    decreases |s|
  {
    if |s| < 2 then 0
    else (if s[0] == '}' && s[1] == '{' then 1 else 0) + Boundaries(s[1..])
  }

  /** Step 2. Every `}{` becomes `},{`: the output has no `}{` left, it starts
      like the input, and it is one character longer per object boundary. */
  function SeparateObjects(s: seq<char>): (r: seq<char>)
    ensures |r| == |s| + Boundaries(s)
    ensures |s| > 0 ==> |r| > 0 && r[0] == s[0]
    ensures NoBoundary(r)
    decreases |s|
  {
    if |s| < 2 then s
    else if s[0] == '}' && s[1] == '{' then
      assert Boundaries(s[1..]) == Boundaries(s[2..]);
      ObjectSeparator + SeparateObjects(s[2..])
    else [s[0]] + SeparateObjects(s[1..])
  }

  /** Away from a boundary, step 2 copies the character in front. */
  lemma SeparateObjectsCons(c: char, t: seq<char>)
    requires !(c == '}' && |t| > 0 && t[0] == '{')
    ensures SeparateObjects([c] + t) == [c] + SeparateObjects(t)
  {
    assert ([c] + t)[1..] == t;
  }

  /** At a boundary, step 2 writes `},{` and continues after the `{`. */
  lemma SeparateObjectsAtBoundary(t: seq<char>)
    ensures SeparateObjects("}{" + t) == ObjectSeparator + SeparateObjects(t)
  {
    assert ("}{" + t)[2..] == t;
  }

  /** Step 2 works locally: a stretch without `}{` that does not end in a `}`
      just before a `{` passes through unchanged. */
  lemma {:induction false} SeparateObjectsPrefix(a: seq<char>, t: seq<char>)
    requires NoBoundary(a)
    requires |a| == 0 || |t| == 0 || !(a[|a| - 1] == '}' && t[0] == '{')
    ensures SeparateObjects(a + t) == a + SeparateObjects(t)
    decreases |a|
  {
    if |a| == 0 {
      assert a + t == t && a + SeparateObjects(t) == SeparateObjects(t);
    } else {
      var a' := a[1..];
      assert a + t == [a[0]] + (a' + t);
      assert !(a[0] == '}' && |a' + t| > 0 && (a' + t)[0] == '{') by {
        if |a'| > 0 {
          assert (a' + t)[0] == a[1];
        }
      }
      SeparateObjectsCons(a[0], a' + t);
      assert forall i :: 0 <= i < |a'| ==> a'[i] == a[i + 1];
      SeparateObjectsPrefix(a', t);
      assert a == [a[0]] + a';
      assert [a[0]] + (a' + SeparateObjects(t)) == a + SeparateObjects(t);
    }
  }

  /** Step 2 adds commas and nothing else: removing all commas from input and
      output gives the same text. */
  lemma {:induction false} SeparateObjectsOnlyAddsCommas(s: seq<char>)
    ensures Filter(SeparateObjects(s), IsNotComma) == Filter(s, IsNotComma)
    decreases |s|
  {
    if |s| >= 2 {
      if s[0] == '}' && s[1] == '{' {
        var t := s[2..];
        assert s == "}{" + t;
        SeparateObjectsAtBoundary(t);
        SeparateObjectsOnlyAddsCommas(t);
        FilterAppend("}{", t, IsNotComma);
        FilterAppend(ObjectSeparator, SeparateObjects(t), IsNotComma);
      } else {
        var t := s[1..];
        assert s == [s[0]] + t;
        SeparateObjectsCons(s[0], t);
        SeparateObjectsOnlyAddsCommas(t);
        FilterAppend([s[0]], t, IsNotComma);
        FilterAppend([s[0]], SeparateObjects(t), IsNotComma);
      }
    }
  }

  /** Step 2 writes one new comma per object boundary. */
  lemma {:induction false} SeparateObjectsCommaCount(s: seq<char>)
    ensures multiset(SeparateObjects(s))[','] == multiset(s)[','] + Boundaries(s)
    decreases |s|
  {
    if |s| >= 2 {
      if s[0] == '}' && s[1] == '{' {
        var t := s[2..];
        assert s == "}{" + t;
        SeparateObjectsCommaCount(t);
        CommaCountAtBoundary(t);
      } else {
        var t := s[1..];
        assert s == [s[0]] + t;
        SeparateObjectsCommaCount(t);
        CommaCountElsewhere(s[0], t);
      }
    }
  }

  /** `SeparateObjectsCommaCount` where the text starts with `}{`. */
  lemma CommaCountAtBoundary(t: seq<char>)
    requires multiset(SeparateObjects(t))[','] == multiset(t)[','] + Boundaries(t)
    ensures multiset(SeparateObjects("}{" + t))[','] == multiset("}{" + t)[','] + Boundaries("}{" + t)
  {
    var s := "}{" + t;
    SeparateObjectsAtBoundary(t);
    assert s[1..] == ['{'] + t && s[1..][1..] == t;
    assert Boundaries(s[1..]) == Boundaries(t);
  }

  /** `SeparateObjectsCommaCount` where the text does not start with `}{`. */
  lemma CommaCountElsewhere(c: char, t: seq<char>)
    requires !(c == '}' && |t| > 0 && t[0] == '{')
    requires multiset(SeparateObjects(t))[','] == multiset(t)[','] + Boundaries(t)
    ensures multiset(SeparateObjects([c] + t))[','] == multiset([c] + t)[','] + Boundaries([c] + t)
  {
    SeparateObjectsCons(c, t);
    BoundariesCons(c, t);
  }

  /** A character in front that does not start a `}{` adds no boundary. */
  lemma BoundariesCons(c: char, t: seq<char>)
    requires !(c == '}' && |t| > 0 && t[0] == '{')
    ensures Boundaries([c] + t) == Boundaries(t)
  {
    if |t| > 0 {
      assert ([c] + t)[1..] == t;
    }
  }

  lemma {:induction false} NoBoundaryCount(s: seq<char>)
    ensures NoBoundary(s) <==> Boundaries(s) == 0
    decreases |s|
  {
    if |s| >= 2 {
      NoBoundaryCount(s[1..]);
      assert forall i :: 1 <= i < |s| ==> s[1..][i - 1] == s[i];
    }
  }

  /** Text that step 2 leaves unchanged is exactly text without `}{`. */
  lemma {:induction false} SeparateObjectsFixedPoints(s: seq<char>)
    ensures SeparateObjects(s) == s <==> NoBoundary(s)
    decreases |s|
  {
    NoBoundaryCount(s);
    if |s| >= 2 && NoBoundary(s) {
      NoBoundaryCount(s[1..]);
      SeparateObjectsFixedPoints(s[1..]);
      assert s == [s[0]] + s[1..];
    }
  }

  /** Removes the comma of every `},{`: the inverse direction of step 2. */
  function JoinObjects(s: seq<char>): (r: seq<char>)
    ensures |r| <= |s|
    decreases |s|
  {
    if |s| < 3 then s
    else if s[0] == '}' && s[1] == ',' && s[2] == '{' then ['}'] + JoinObjects(s[2..])
    else [s[0]] + JoinObjects(s[1..])
  }

  lemma JoinObjectsCons(c: char, t: seq<char>)
    requires !(c == '}' && |t| >= 2 && t[0] == ',' && t[1] == '{')
    ensures JoinObjects([c] + t) == [c] + JoinObjects(t)
  {
    assert ([c] + t)[1..] == t;
  }

  lemma JoinObjectsAtSeparator(t: seq<char>)
    ensures JoinObjects(ObjectSeparator + t) == ['}'] + JoinObjects(['{'] + t)
  {
    assert (ObjectSeparator + t)[2..] == ['{'] + t;
  }

  /** `s` contains the three characters `},{` somewhere. */
  predicate HasObjectSeparator(s: seq<char>) {
    exists i :: 0 <= i < |s| - 2 && s[i] == '}' && s[i + 1] == ',' && s[i + 2] == '{'
  }

  lemma {:induction false} JoinObjectsIdentity(s: seq<char>)
    requires !HasObjectSeparator(s)
    ensures JoinObjects(s) == s
    decreases |s|
  {
    if |s| >= 3 {
      assert !(s[0] == '}' && s[1] == ',' && s[2] == '{');
      assert forall i :: 1 <= i < |s| ==> s[1..][i - 1] == s[i];
      JoinObjectsIdentity(s[1..]);
      assert s == [s[0]] + s[1..];
    }
  }

  /** Joining after step 2 drops exactly the commas step 2 inserted: the
      result is what joining the original text gives. */
  lemma {:induction false} JoinAfterSeparate(s: seq<char>)
    ensures JoinObjects(SeparateObjects(s)) == JoinObjects(s)
    decreases |s|
  {
    if |s| < 2 {
    } else if s[0] == '}' && s[1] == '{' {
      var t := s[2..];
      assert s == "}{" + t;
      JoinAfterSeparate(t);
      JoinAfterBoundary(t);
    } else if s[0] == '}' && |s| >= 3 && s[1] == ',' && s[2] == '{' {
      var u := s[3..];
      assert s == ObjectSeparator + u;
      JoinAfterSeparate(u);
      JoinAfterSeparator(u);
    } else {
      var t := s[1..];
      assert s == [s[0]] + t;
      JoinAfterSeparate(t);
      JoinAfterOther(s[0], t);
    }
  }

  /** `JoinAfterSeparate` where the text starts with `}{`. */
  lemma JoinAfterBoundary(t: seq<char>)
    requires JoinObjects(SeparateObjects(t)) == JoinObjects(t)
    ensures JoinObjects(SeparateObjects("}{" + t)) == JoinObjects("}{" + t)
  {
    SeparateObjectsAtBoundary(t);
    JoinObjectsAtSeparatorFront(SeparateObjects(t));
    JoinObjectsAtBoundaryFront(t);
  }

  /** `JoinAfterSeparate` where the text starts with `},{`. */
  lemma JoinAfterSeparator(u: seq<char>)
    requires JoinObjects(SeparateObjects(u)) == JoinObjects(u)
    ensures JoinObjects(SeparateObjects(ObjectSeparator + u)) == JoinObjects(ObjectSeparator + u)
  {
    SeparateObjectsAtSeparator(u);
    JoinObjectsAtSeparatorFront(SeparateObjects(u));
    JoinObjectsAtSeparatorFront(u);
  }

  /** Step 2 copies a `},{` already present. */
  lemma SeparateObjectsAtSeparator(u: seq<char>)
    ensures SeparateObjects(ObjectSeparator + u) == ObjectSeparator + SeparateObjects(u)
  {
    var v := ['{'] + u;
    var w := [','] + v;
    SeparateObjectsCons('{', u);
    SeparateObjectsCons(',', v);
    SeparateObjectsCons('}', w);
    assert ObjectSeparator + u == ['}'] + w;
    assert ObjectSeparator + SeparateObjects(u) == ['}'] + ([','] + (['{'] + SeparateObjects(u)));
  }

  /** Joining turns a leading `},{` into `}{`. */
  lemma JoinObjectsAtSeparatorFront(v: seq<char>)
    ensures JoinObjects(ObjectSeparator + v) == "}{" + JoinObjects(v)
  {
    JoinObjectsAtSeparator(v);
    JoinObjectsCons('{', v);
  }

  /** Joining leaves a leading `}{` alone. */
  lemma JoinObjectsAtBoundaryFront(t: seq<char>)
    ensures JoinObjects("}{" + t) == "}{" + JoinObjects(t)
  {
    assert "}{" + t == ['}'] + (['{'] + t);
    JoinObjectsCons('{', t);
    JoinObjectsCons('}', ['{'] + t);
  }

  /** `JoinAfterSeparate` where the text starts with neither. */
  lemma JoinAfterOther(c: char, t: seq<char>)
    requires JoinObjects(SeparateObjects(t)) == JoinObjects(t)
    requires !(c == '}' && |t| >= 1 && t[0] == '{')
    requires !(c == '}' && |t| >= 2 && t[0] == ',' && t[1] == '{')
    ensures JoinObjects(SeparateObjects([c] + t)) == JoinObjects([c] + t)
  {
    SeparateObjectsCons(c, t);
    SeparatedFront(t);
    JoinObjectsCons(c, SeparateObjects(t));
    JoinObjectsCons(c, t);
  }

  /** The output of step 2 starts with `,{` only when its input does. */
  lemma SeparatedFront(t: seq<char>)
    ensures var r := SeparateObjects(t);
      (|r| >= 2 && r[0] == ',' && r[1] == '{') ==> (|t| >= 2 && t[0] == ',' && t[1] == '{')
  {
    if |t| > 0 && t[0] == ',' {
      assert t == [','] + t[1..];
      SeparateObjectsCons(',', t[1..]);
    }
  }

  /** Round trip of step 2: on text that has no `},{` of its own, removing the
      inserted commas gives back the input. */
  lemma {:induction false} SeparateObjectsRoundTrip(s: seq<char>)
    requires !HasObjectSeparator(s)
    ensures JoinObjects(SeparateObjects(s)) == s
  {
    JoinAfterSeparate(s);
    JoinObjectsIdentity(s);
  }

  /** Step 2 cannot be undone in general: `}{` and `},{` give the same text. */
  lemma SeparateObjectsNotInjective()
    ensures SeparateObjects("}{") == SeparateObjects("},{") == ObjectSeparator
  {
    SeparateObjectsAtBoundary([]);
    SeparateObjectsCons('}', ",{");
    SeparateObjectsCons(',', "{");
  }

  // -------------------------------------------------------------------------
  // Step 2 keeps the absence of quote runs

  /** Up to its first non-space character, when that is a quote, the output of
      step 2 agrees with its input. */
  lemma {:induction false} SeparateObjectsQuotePrefix(u: seq<char>, m: nat)
    requires m < |SeparateObjects(u)|
    requires SpacesBetween(SeparateObjects(u), 0, m)
    requires SeparateObjects(u)[m] == '"'
    ensures m < |u| && u[m] == '"' && SpacesBetween(u, 0, m)
    decreases |u|
  {
    if |u| >= 2 {
      var r := SeparateObjects(u);
      var t := u[1..];
      // at a boundary r would start with '}', neither whitespace nor a quote
      if m > 0 {
        assert u == [u[0]] + t;
        SeparateObjectsCons(u[0], t);
        var rt := SeparateObjects(t);
        assert forall k :: 0 <= k < |rt| ==> rt[k] == r[k + 1];
        SeparateObjectsQuotePrefix(t, m - 1);
        assert forall k :: 0 <= k < |t| ==> t[k] == u[k + 1];
      }
    }
  }

  lemma {:induction false} SeparateObjectsKeepsNoQuoteRun(t: seq<char>)
    requires NoQuoteRun(t)
    ensures NoQuoteRun(SeparateObjects(t))
    decreases |t|
  {
    if |t| >= 2 {
      if t[0] == '}' && t[1] == '{' {
        var u := t[2..];
        assert t == "}{" + u;
        SeparateObjectsAtBoundary(u);
        NoQuoteRunTail(t);
        assert t[1..][1..] == u;
        NoQuoteRunTail(t[1..]);
        SeparateObjectsKeepsNoQuoteRun(u);
        var rest := SeparateObjects(u);
        NoQuoteRunCons('{', rest);
        NoQuoteRunCons(',', ['{'] + rest);
        NoQuoteRunCons('}', [','] + (['{'] + rest));
        assert ObjectSeparator + rest == ['}'] + ([','] + (['{'] + rest));
      } else {
        var u := t[1..];
        assert t == [t[0]] + u;
        SeparateObjectsCons(t[0], u);
        NoQuoteRunTail(t);
        SeparateObjectsKeepsNoQuoteRun(u);
        var rest := SeparateObjects(u);
        var r := [t[0]] + rest;
        forall j
          ensures !QuoteRunAt(r, 0, j)
        {
          QuoteRunFrontBack(t[0], u, j);
        }
        NoQuoteRunCons(t[0], rest);
      }
    }
  }

  /** A quote run at the front of `c` followed by the output of step 2 on
      `u` is already one at the front of `c` followed by `u`. */
  lemma QuoteRunFrontBack(c: char, u: seq<char>, j: int)
    ensures QuoteRunAt([c] + SeparateObjects(u), 0, j) ==> QuoteRunAt([c] + u, 0, j)
  {
    var rest := SeparateObjects(u);
    var r, t := [c] + rest, [c] + u;
    if QuoteRunAt(r, 0, j) {
      assert forall k :: 0 <= k < |rest| ==> rest[k] == r[k + 1];
      SeparateObjectsQuotePrefix(u, j - 1);
      assert forall k :: 0 <= k < |u| ==> u[k] == t[k + 1];
    }
  }

  // -------------------------------------------------------------------------
  // The whole repair

  /** Both steps, in the order the script applies them; no `}{` is left. */
  function Repair(raw: seq<char>): (fixed: seq<char>)
    ensures NoBoundary(fixed)
  {
    SeparateObjects(SeparateFields(raw))
  }

  /** The repair keeps the number of `{` and the number of `}`. */
  lemma RepairKeepsBraces(raw: seq<char>)
    ensures multiset(Repair(raw))['{'] == multiset(raw)['{']
    ensures multiset(Repair(raw))['}'] == multiset(raw)['}']
  {
    RepairKeepsCount(raw, '{');
    RepairKeepsCount(raw, '}');
  }

  /** A character neither step can write or remove occurs as often after
      the repair as before. */
  lemma RepairKeepsCount(raw: seq<char>, c: char)
    requires IsContent(c)
    ensures multiset(Repair(raw))[c] == multiset(raw)[c]
  {
    var fields := SeparateFields(raw);
    SeparateFieldsKeepsContent(raw);
    FilterCount(raw, IsContent, c);
    FilterCount(fields, IsContent, c);
    SeparateObjectsOnlyAddsCommas(fields);
    FilterCount(fields, IsNotComma, c);
    FilterCount(Repair(raw), IsNotComma, c);
  }

  /** The repair changes a text exactly when it has a quote run or a `}{`. */
  lemma RepairFixedPoints(s: seq<char>)
    ensures Repair(s) == s <==> NoQuoteRun(s) && NoBoundary(s)
  {
    var fields := SeparateFields(s);
    SeparateFieldsFixedPoints(s);
    SeparateObjectsFixedPoints(s);
    if Repair(s) == s {
      // each replacement of step 1 adds a comma, and step 2 removes none
      SeparateFieldsCounts(s);
      SeparateObjectsCommaCount(fields);
      ReplacementsNone(s);
    }
  }

  /** Repairing twice gives what repairing once gives, provided step 1 left
      no quote run behind. */
  lemma RepairIdempotent(s: seq<char>)
    requires NoQuoteRun(SeparateFields(s))
    ensures Repair(Repair(s)) == Repair(s)
  {
    SeparateObjectsKeepsNoQuoteRun(SeparateFields(s));
    RepairFixedPoints(Repair(s));
  }
}
