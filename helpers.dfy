/**
  The string helpers of src/utils/helpers.ts: the filename slug
  (`sanitizeFilename`) and the formatting step of `getTimestamp`.

  A slug is built in four steps: ASCII lower-casing, collapsing each run of
  characters outside `[a-z0-9]` into one `-`, stripping one leading and one
  trailing `-`, and keeping the first 50 characters. Because the cut comes
  last, a slug can end in `-` when the cut falls right after a separator.
 */
module Helpers {

  const MaxSlugLength: nat := 50

  predicate IsSlugChar(c: char) {
    ('a' <= c <= 'z') || ('0' <= c <= '9')
  }

  /** Every character is a slug character or `-`, and no two `-` are adjacent. */
  predicate IsCollapsed(s: string) {
    && (forall k :: 0 <= k < |s| ==> IsSlugChar(s[k]) || s[k] == '-')
    && (forall i, j :: 0 <= i < j < |s| && s[i] == '-' && s[j] == '-' ==> i + 1 < j)
  }

  /** A finished slug: collapsed, at most 50 characters, no `-` at either end. */
  predicate IsSlug(s: string) {
    IsCollapsed(s) && |s| <= MaxSlugLength && (s == [] || (s[0] != '-' && s[|s| - 1] != '-'))
  }

  function ToLowerAscii(c: char): char {
    if 'A' <= c <= 'Z' then (c as int - 'A' as int + 'a' as int) as char else c
  }

  function LowerCase(s: string): (r: string)
    ensures |r| == |s|
    ensures forall k :: 0 <= k < |s| ==> r[k] == ToLowerAscii(s[k])
  {
    seq(|s|, k requires 0 <= k < |s| => ToLowerAscii(s[k]))
  }

  /** Drops the separators at the front of `s`. */
  function SkipSeparators(s: string): (r: string)
    ensures |r| <= |s| && r == s[|s| - |r|..]
    ensures r == [] || IsSlugChar(r[0])
  {
    if s == [] || IsSlugChar(s[0]) then s else SkipSeparators(s[1..])
  }

  /** `replace(/[^a-z0-9]+/g, '-')`: each maximal run of separators becomes one `-`. */
  function Collapse(s: string): (r: string)
    ensures |r| <= |s|
    ensures s == [] <==> r == []
    ensures s != [] ==> r[0] == if IsSlugChar(s[0]) then s[0] else '-'
    decreases |s|
  {
    if s == [] then []
    else if IsSlugChar(s[0]) then [s[0]] + Collapse(s[1..])
    else "-" + Collapse(SkipSeparators(s[1..]))
  }

  /** `replace(/^-|-$/g, '')`: one `-` at the front and one at the end are removed. */
  function StripEdgeDashes(s: string): (r: string)
    ensures |s| <= |r| + 2 && |r| <= |s|
    ensures var lo := if s != [] && s[0] == '-' then 1 else 0;
            lo + |r| <= |s| && r == s[lo..lo + |r|]
    ensures s == [] || (s[0] != '-' && s[|s| - 1] != '-') ==> r == s
    ensures var lo := if s != [] && s[0] == '-' then 1 else 0;
            var hi := if |s| > lo && s[|s| - 1] == '-' then 1 else 0;
            r == s[lo..|s| - hi]
  {
    var t := if |s| > 0 && s[0] == '-' then s[1..] else s;
    if |t| > 0 && t[|t| - 1] == '-' then t[..|t| - 1] else t
  }

  /** On collapsed text, stripping leaves no `-` at either end, because
      no two `-` are adjacent. */
  lemma StripRemovesEdgeDashes(s: string)
    requires IsCollapsed(s)
    ensures var r := StripEdgeDashes(s);
            r == [] || (r[0] != '-' && r[|r| - 1] != '-')
  {
    var r := StripEdgeDashes(s);
    if |s| >= 2 {
      if s[0] == '-' { assert s[1] != '-'; }
      if s[|s| - 1] == '-' { assert s[|s| - 2] != '-'; }
    }
  }

  /** `slice(0, n)` for a non-negative `n`. */
  function Truncate(s: string, n: nat): (r: string)
    ensures |r| == if |s| <= n then |s| else n
    ensures r == s[..|r|]
  {
    if |s| <= n then s else s[..n]
  }

  /** The slug of helpers.ts:46-52. */
  function SanitizeFilename(str: string): (r: string)
    ensures |r| <= MaxSlugLength
    ensures r == [] || r[0] != '-'
    ensures r != [] && r[|r| - 1] == '-' ==> |r| == MaxSlugLength
  {
    var collapsed := Collapse(LowerCase(str));
    CollapseIsCollapsed(LowerCase(str));
    Truncate(StripEdgeDashes(collapsed), MaxSlugLength)
  }

  /** A slug holds only `[a-z0-9]` and single `-` separators. */
  lemma SanitizeIsCollapsed(str: string)
    ensures IsCollapsed(SanitizeFilename(str))
  {
    var c := Collapse(LowerCase(str));
    CollapseIsCollapsed(LowerCase(str));
    StripKeepsCollapsed(c);
    TruncateKeepsCollapsed(StripEdgeDashes(c), MaxSlugLength);
  }

  lemma StripKeepsCollapsed(s: string)
    requires IsCollapsed(s)
    ensures IsCollapsed(StripEdgeDashes(s))
  {
    var lo := if |s| > 0 && s[0] == '-' then 1 else 0;
    var t := s[lo..];
    var hi := if |t| > 0 && t[|t| - 1] == '-' then |s| - 1 else |s|;
    assert StripEdgeDashes(s) == s[lo..hi];
    CollapsedSlice(s, lo, hi);
  }

  lemma TruncateKeepsCollapsed(s: string, n: nat)
    requires IsCollapsed(s)
    ensures IsCollapsed(Truncate(s, n))
  {
    if n < |s| {
      CollapsedSlice(s, 0, n);
    }
  }

  /** Any stretch of collapsed text is collapsed. */
  lemma CollapsedSlice(s: string, lo: nat, hi: nat)
    requires IsCollapsed(s) && lo <= hi <= |s|
    ensures IsCollapsed(s[lo..hi])
  {
    var t := s[lo..hi];
    assert forall k :: 0 <= k < |t| ==> t[k] == s[lo + k];
  }

  /** Collapsing leaves only slug characters and single `-` separators. */
  lemma {:induction false} CollapseIsCollapsed(s: string)
    ensures IsCollapsed(Collapse(s))
    decreases |s|
  {
    if s != [] {
      if IsSlugChar(s[0]) {
        CollapseIsCollapsed(s[1..]);
        ConsCollapsed(s[0], Collapse(s[1..]));
      } else {
        var tail := SkipSeparators(s[1..]);
        CollapseIsCollapsed(tail);
        ConsCollapsed('-', Collapse(tail));
      }
    }
  }

  /** A slug character, or a `-` not followed by another, in front of
      collapsed text keeps it collapsed. */
  lemma ConsCollapsed(c: char, s: string)
    requires IsCollapsed(s)
    requires IsSlugChar(c) || (c == '-' && (s == [] || s[0] != '-'))
    ensures IsCollapsed([c] + s)
  {
    var r := [c] + s;
    assert forall k :: 1 <= k < |r| ==> r[k] == s[k - 1];
    forall i, j | 0 <= i < j < |r| && r[i] == '-' && r[j] == '-'
      ensures i + 1 < j
    {
      if i > 0 {
        assert s[i - 1] == '-' && s[j - 1] == '-';
      }
    }
  }

  lemma {:induction false} CollapseKeepsCollapsed(s: string)
    requires IsCollapsed(s)
    ensures Collapse(s) == s
    decreases |s|
  {
    if s != [] {
      var tail := s[1..];
      CollapsedTail(s);
      CollapseKeepsCollapsed(tail);
      if IsSlugChar(s[0]) {
        assert Collapse(s) == [s[0]] + Collapse(tail);
      } else {
        assert s[0] == '-';
        assert tail == [] || IsSlugChar(tail[0]) by {
          if tail != [] {
            assert tail[0] == s[1];
          }
        }
        assert SkipSeparators(tail) == tail;
        assert Collapse(s) == "-" + Collapse(tail);
      }
      assert [s[0]] + tail == s;
    }
  }

  lemma CollapsedTail(s: string)
    requires IsCollapsed(s) && s != []
    ensures IsCollapsed(s[1..])
  {
    var tail := s[1..];
    assert forall k :: 0 <= k < |tail| ==> tail[k] == s[k + 1];
  }

  lemma LowerCaseKeepsCollapsed(s: string)
    requires IsCollapsed(s)
    ensures LowerCase(s) == s
  {
  }

  /** Sanitizing text that is already collapsed, short enough and without a
      leading `-` only strips a trailing `-`. */
  lemma ResanitizeSlug(r: string)
    requires IsCollapsed(r) && |r| <= MaxSlugLength && (r == [] || r[0] != '-')
    ensures SanitizeFilename(r) == if r != [] && r[|r| - 1] == '-' then r[..|r| - 1] else r
  {
    assert Collapse(LowerCase(r)) == r by {
      LowerCaseKeepsCollapsed(r);
      CollapseKeepsCollapsed(r);
    }
    SanitizeSteps(r, r);
    StripAndCut(r);
  }

  /** The last two steps on text of at most 50 characters without a leading
      `-`: only a trailing `-` is removed. */
  lemma StripAndCut(r: string)
    requires |r| <= MaxSlugLength && (r == [] || r[0] != '-')
    ensures Truncate(StripEdgeDashes(r), MaxSlugLength) == if r != [] && r[|r| - 1] == '-' then r[..|r| - 1] else r
  {
  }

  /** A finished slug is its own slug. */
  lemma SanitizeKeepsSlugs(s: string)
    requires IsSlug(s)
    ensures SanitizeFilename(s) == s
  {
    ResanitizeSlug(s);
  }

  /** Sanitizing a slug again changes it only by dropping the trailing `-`
      that the 50-character cut may have left. */
  lemma SanitizeIdempotent(str: string)
    ensures var r := SanitizeFilename(str);
            SanitizeFilename(r) == if r != [] && r[|r| - 1] == '-' then r[..|r| - 1] else r
  {
    SanitizeIsCollapsed(str);
    ResanitizeSlug(SanitizeFilename(str));
  }

  /** Lower-casing works character by character. */
  lemma LowerCaseAppend(a: string, b: string)
    ensures LowerCase(a + b) == LowerCase(a) + LowerCase(b)
  {
    assert forall k :: 0 <= k < |a + b| ==> (a + b)[k] == if k < |a| then a[k] else b[k - |a|];
  }

  lemma LowerCaseOfSlugChars(s: string)
    requires forall k :: 0 <= k < |s| ==> IsSlugChar(s[k])
    ensures LowerCase(s) == s
  {
  }

  /** The sanitizer's steps, for text whose lower-cased and collapsed forms are known. */
  lemma SanitizeSteps(str: string, collapsed: string)
    requires Collapse(LowerCase(str)) == collapsed
    ensures SanitizeFilename(str) == Truncate(StripEdgeDashes(collapsed), MaxSlugLength)
  {
  }

  /** A trailing `-` does survive: 49 slug characters, a space and more
      slug characters give a slug that ends in `-`. */
  lemma TrailingDashAfterCut(head: string, tail: string)
    requires |head| == MaxSlugLength - 1 && tail != []
    requires forall k :: 0 <= k < |head| ==> IsSlugChar(head[k])
    requires forall k :: 0 <= k < |tail| ==> IsSlugChar(tail[k])
    ensures SanitizeFilename(head + " " + tail) == head + "-"
  {
    var str := head + (" " + tail);
    assert head + " " + tail == str;
    SpacedLower(head, tail);
    SpacedCollapse(head, tail);
    SanitizeSteps(str, head + ("-" + tail));
    SpacedCut(head, tail);
  }

  lemma SpacedLower(head: string, tail: string)
    requires forall k :: 0 <= k < |head| ==> IsSlugChar(head[k])
    requires forall k :: 0 <= k < |tail| ==> IsSlugChar(tail[k])
    ensures LowerCase(head + (" " + tail)) == head + (" " + tail)
  {
    LowerCaseAppend(head, " " + tail);
    LowerCaseAppend(" ", tail);
    LowerCaseOfSlugChars(head);
    LowerCaseOfSlugChars(tail);
  }

  lemma SpacedCollapse(head: string, tail: string)
    requires forall k :: 0 <= k < |head| ==> IsSlugChar(head[k])
    requires forall k :: 0 <= k < |tail| ==> IsSlugChar(tail[k])
    ensures Collapse(head + (" " + tail)) == head + ("-" + tail)
  {
    CollapseWord(head, " ", tail);
    CollapsePrefix(tail, []);
    assert tail + [] == tail;
  }

  lemma SpacedCut(head: string, tail: string)
    requires |head| == MaxSlugLength - 1 && tail != []
    requires head[0] != '-' && tail[|tail| - 1] != '-'
    ensures Truncate(StripEdgeDashes(head + ("-" + tail)), MaxSlugLength) == head + "-"
  {
    var collapsed := head + ("-" + tail);
    assert collapsed[0] == head[0];
    assert collapsed[|collapsed| - 1] == tail[|tail| - 1];
    assert collapsed[..MaxSlugLength] == head + "-";
  }

  /** The worked example: `"Hello, World!!"` becomes `"hello-world"`. */
  lemma SanitizeExample(str: string)
    requires str == "Hello, World!!"
    ensures SanitizeFilename(str) == "hello-world"
  {
    var hello, world, comma, bangs := "hello", "world", ", ", "!!";
    var collapsed := hello + ("-" + (world + ("-" + [])));
    ExampleLower(str, hello, world, comma, bangs);
    ExampleCollapse(hello, world, comma, bangs);
    SanitizeSteps(str, collapsed);
    ExampleCut(hello, world);
  }

  lemma ExampleCut(hello: string, world: string)
    requires hello == "hello" && world == "world"
    ensures Truncate(StripEdgeDashes(hello + ("-" + (world + ("-" + [])))), MaxSlugLength) == "hello-world"
  {
    assert StripEdgeDashes(hello + ("-" + (world + ("-" + [])))) == "hello-world";
  }

  lemma ExampleLower(str: string, hello: string, world: string, comma: string, bangs: string)
    requires str == "Hello, World!!"
    requires hello == "hello" && world == "world" && comma == ", " && bangs == "!!"
    ensures LowerCase(str) == hello + (comma + (world + (bangs + [])))
  {
  }

  lemma ExampleCollapse(hello: string, world: string, comma: string, bangs: string)
    requires hello == "hello" && world == "world" && comma == ", " && bangs == "!!"
    ensures Collapse(hello + (comma + (world + (bangs + [])))) == hello + ("-" + (world + ("-" + [])))
  {
    CollapseWord(world, bangs, []);
    assert Collapse([]) == [];
    CollapseWord(hello, comma, world + (bangs + []));
  }

  /** A word, a run of separators, then the rest: the run becomes one `-`. */
  lemma CollapseWord(word: string, separators: string, rest: string)
    requires forall k :: 0 <= k < |word| ==> IsSlugChar(word[k])
    requires separators != [] && forall k :: 0 <= k < |separators| ==> !IsSlugChar(separators[k])
    requires rest == [] || IsSlugChar(rest[0])
    ensures Collapse(word + (separators + rest)) == word + ("-" + Collapse(rest))
  {
    CollapseRun(separators, rest);
    CollapsePrefix(word, separators + rest);
  }

  /** A run of separators in front of a slug character becomes one `-`. */
  lemma CollapseRun(separators: string, rest: string)
    requires separators != [] && forall k :: 0 <= k < |separators| ==> !IsSlugChar(separators[k])
    requires rest == [] || IsSlugChar(rest[0])
    ensures Collapse(separators + rest) == "-" + Collapse(rest)
  {
    var t := separators + rest;
    assert t[0] == separators[0];
    assert t[1..] == separators[1..] + rest;
    SkipRun(separators[1..], rest);
  }

  /** Collapsing keeps a leading run of slug characters as it is. */
  lemma {:induction false} CollapsePrefix(word: string, rest: string)
    requires forall k :: 0 <= k < |word| ==> IsSlugChar(word[k])
    ensures Collapse(word + rest) == word + Collapse(rest)
    decreases |word|
  {
    if word == [] {
      assert word + rest == rest;
    } else {
      var s := word + rest;
      assert s[0] == word[0];
      assert s[1..] == word[1..] + rest;
      CollapsePrefix(word[1..], rest);
      assert [word[0]] + (word[1..] + Collapse(rest)) == word + Collapse(rest);
    }
  }

  lemma {:induction false} SkipRun(separators: string, rest: string)
    requires forall k :: 0 <= k < |separators| ==> !IsSlugChar(separators[k])
    requires rest == [] || IsSlugChar(rest[0])
    ensures SkipSeparators(separators + rest) == rest
    decreases |separators|
  {
    if separators == [] {
      assert separators + rest == rest;
    } else {
      assert (separators + rest)[0] == separators[0];
      assert (separators + rest)[1..] == separators[1..] + rest;
      SkipRun(separators[1..], rest);
    }
  }

  // ---------------------------------------------------------------------
  // Timestamps
  // ---------------------------------------------------------------------

  /** `replace(/[:.]/g, '-')` */
  function ReplaceSeparators(s: string): (r: string)
    ensures |r| == |s|
    ensures forall k :: 0 <= k < |s| ==> r[k] != ':' && r[k] != '.'
    ensures forall k :: 0 <= k < |s| ==> (r[k] == s[k] <==> s[k] != ':' && s[k] != '.')
  {
    seq(|s|, k requires 0 <= k < |s| => if s[k] == ':' || s[k] == '.' then '-' else s[k])
  }

  /** The formatting step of helpers.ts:10-13 (`getTimestamp`), applied to
      the ISO-8601 string the clock gave: separators become `-`, then
      `slice(0, -5)` keeps all but the last five characters. */
  function FormatTimestamp(iso: string): (r: string)
    ensures |r| == if |iso| >= 5 then |iso| - 5 else 0
    ensures forall k :: 0 <= k < |r| ==> r[k] != ':' && r[k] != '.'
    ensures forall k :: 0 <= k < |r| ==> r[k] == iso[k] || (r[k] == '-' && (iso[k] == ':' || iso[k] == '.'))
  {
    var replaced := ReplaceSeparators(iso);
    replaced[..if |iso| >= 5 then |iso| - 5 else 0]
  }

  predicate IsDigit(c: char) { '0' <= c <= '9' }

  /** The shape `YYYY-MM-DDTHH:MM:SS.mmmZ` that `Date.toISOString` produces
      for four-digit years. */
  predicate IsIsoInstant(s: string) {
    && |s| == 24
    && (forall k :: k in {0, 1, 2, 3, 5, 6, 8, 9, 11, 12, 14, 15, 17, 18, 20, 21, 22} ==> IsDigit(s[k]))
    && s[4] == '-' && s[7] == '-' && s[10] == 'T' && s[13] == ':' && s[16] == ':'
    && s[19] == '.' && s[23] == 'Z'
  }

  /** An ISO instant becomes the 19-character `YYYY-MM-DDTHH-MM-SS`:
      seconds precision, no `:` or `.`, only digits, `-` and `T`. */
  lemma IsoTimestampShape(iso: string)
    requires IsIsoInstant(iso)
    ensures FormatTimestamp(iso) == iso[..13] + "-" + iso[14..16] + "-" + iso[17..19]
    ensures |FormatTimestamp(iso)| == 19
    ensures forall k :: 0 <= k < 19 ==>
              IsDigit(FormatTimestamp(iso)[k]) || FormatTimestamp(iso)[k] in "-T"
  {
    var r := FormatTimestamp(iso);
    var e := iso[..13] + "-" + iso[14..16] + "-" + iso[17..19];
    assert |r| == |e| == 19;
    forall k | 0 <= k < 19 ensures r[k] == e[k] {
      if k == 13 || k == 16 {
      } else if k < 13 {
        assert e[k] == iso[k];
      } else if k < 16 {
        assert e[k] == iso[k];
      } else {
        assert e[k] == iso[k];
      }
    }
    forall k | 0 <= k < 19 ensures IsDigit(r[k]) || r[k] in "-T" {
      assert k in {0, 1, 2, 3, 5, 6, 8, 9, 11, 12, 14, 15, 17, 18} || k in {4, 7, 10, 13, 16};
    }
  }
}
