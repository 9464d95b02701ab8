/**
 * Text primitives that the editor borrows from Python's str type:
 * character classes, lower-casing, str.find, str.replace and clamped slicing.
 * Character classes are the ASCII ones; Unicode semantics is not modelled.
 */
module TextOps {

  /** ASCII reading of str.isalnum on one character. */
  predicate IsAlnum(c: char) {
    ('a' <= c <= 'z') || ('A' <= c <= 'Z') || ('0' <= c <= '9')
  }

  /** ASCII reading of str.isspace: space, \t \n \v \f \r and the separators 0x1c-0x1f. */
  predicate IsSpace(c: char) {
    c == ' ' || (9 <= c as int <= 13) || (28 <= c as int <= 31)
  }

  /** ASCII reading of str.lower on one character. */
  function LowerChar(c: char): char {
    if 'A' <= c <= 'Z' then (c as int + 32) as char else c
  }

  /** str.lower: every character lower-cased, length kept. */
  function Lower(s: seq<char>): (r: seq<char>)
    ensures |r| == |s|
    ensures forall i :: 0 <= i < |s| ==> r[i] == LowerChar(s[i])
  {
    if s == [] then [] else [LowerChar(s[0])] + Lower(s[1..])
  }

  /** Lower-casing twice is lower-casing once. */
  lemma LowerIdempotent(s: seq<char>)
    ensures Lower(Lower(s)) == Lower(s)
  {
    assert forall i :: 0 <= i < |s| ==> LowerChar(LowerChar(s[i])) == LowerChar(s[i]);
  }

  /** `pat` occurs in `text` starting at index i, compared character by character. */
  predicate OccursAt(text: seq<char>, pat: seq<char>, i: int) {
    0 <= i && i + |pat| <= |text| && MatchAt(text, pat, i, 0)
  }

  /** Character-by-character comparison: pat[j..] lies in text at i + j. */
  predicate MatchAt(text: seq<char>, pat: seq<char>, i: nat, j: nat)
    requires i + |pat| <= |text| && j <= |pat|
    decreases |pat| - j
  {
    j == |pat| || (text[i + j] == pat[j] && MatchAt(text, pat, i, j + 1))
  }

  /** The comparison agrees with slice equality. */
  lemma {:induction false} MatchAtIsSlice(text: seq<char>, pat: seq<char>, i: nat, j: nat)
    requires i + |pat| <= |text| && j <= |pat|
    ensures MatchAt(text, pat, i, j) <==> text[i + j..i + |pat|] == pat[j..]
    decreases |pat| - j
  {
    if j < |pat| {
      MatchAtIsSlice(text, pat, i, j + 1);
      assert text[i + j..i + |pat|] == [text[i + j]] + text[i + j + 1..i + |pat|];
      assert pat[j..] == [pat[j]] + pat[j + 1..];
    }
  }

  /** An occurrence is exactly a slice of the text equal to the pattern. */
  lemma OccursAtIsSlice(text: seq<char>, pat: seq<char>, i: int)
    requires 0 <= i && i + |pat| <= |text|
    ensures OccursAt(text, pat, i) <==> text[i..i + |pat|] == pat
  {
    MatchAtIsSlice(text, pat, i, 0);
    assert pat[0..] == pat;
  }

  /** The comparison holds exactly when each remaining character agrees. */
  lemma {:induction false} MatchAtChars(text: seq<char>, pat: seq<char>, i: nat, j: nat)
    requires i + |pat| <= |text| && j <= |pat|
    ensures MatchAt(text, pat, i, j) <==> forall m :: j <= m < |pat| ==> text[i + m] == pat[m]
    decreases |pat| - j
  {
    if j < |pat| {
      MatchAtChars(text, pat, i, j + 1);
    }
  }

  /** An occurrence is exactly agreement of every character of the pattern. */
  lemma OccursAtChars(text: seq<char>, pat: seq<char>, i: int)
    requires 0 <= i && i + |pat| <= |text|
    ensures OccursAt(text, pat, i) <==> forall m :: 0 <= m < |pat| ==> text[i + m] == pat[m]
  {
    MatchAtChars(text, pat, i, 0);
  }

  /** An occurrence survives lower-casing: a case-insensitive search sees every case-sensitive match. */
  lemma LowerKeepsOccurrence(text: seq<char>, pat: seq<char>, i: int)
    requires OccursAt(text, pat, i)
    ensures OccursAt(Lower(text), Lower(pat), i)
  {
    OccursAtChars(text, pat, i);
    OccursAtChars(Lower(text), Lower(pat), i);
  }

  /**
   * str.find(pat, from): the first index at or after `from` where `pat` occurs,
   * or -1 when there is none (also when `from` lies beyond the end).
   */
  function Find(text: seq<char>, pat: seq<char>, from: nat): (r: int)
    ensures r == -1 || from <= r <= |text| - |pat|
    decreases |text| - from
  {
    if from + |pat| > |text| then -1
    else if OccursAt(text, pat, from) then from
    else Find(text, pat, from + 1)
  }

  /** str.find returns the FIRST occurrence: none lies between `from` and its result, or after `from` at all when it returns -1. */
  lemma {:induction false} FindIsFirst(text: seq<char>, pat: seq<char>, from: nat)
    ensures var r := Find(text, pat, from);
      && (r != -1 ==> OccursAt(text, pat, r))
      && (r != -1 ==> forall k :: from <= k < r ==> !OccursAt(text, pat, k))
      && (r == -1 ==> forall k :: from <= k ==> !OccursAt(text, pat, k))
    decreases |text| - from
  {
    if from + |pat| <= |text| && !OccursAt(text, pat, from) {
      FindIsFirst(text, pat, from + 1);
    }
  }

  /** Searching a suffix that two texts share gives the same hit, shifted. */
  lemma {:induction false} FindInSharedSuffix(x: seq<char>, y: seq<char>, pat: seq<char>, m: nat, n: nat)
    requires m <= |x| && n <= |y| && x[m..] == y[n..]
    ensures Find(x, pat, m) == if Find(y, pat, n) == -1 then -1 else Find(y, pat, n) - n + m
    decreases |x| - m
  {
    assert |x| - m == |y| - n;
    if m + |pat| <= |x| {
      assert x[m..m + |pat|] == x[m..][..|pat|] == y[n..][..|pat|] == y[n..n + |pat|];
      OccursAtIsSlice(x, pat, m);
      OccursAtIsSlice(y, pat, n);
      if !OccursAt(x, pat, m) {
        assert x[m + 1..] == x[m..][1..] == y[n..][1..] == y[n + 1..];
        FindInSharedSuffix(x, y, pat, m + 1, n + 1);
      }
    }
  }

  /** str.replace(pat, rep): every non-overlapping occurrence, left to right, replaced. */
  function Replace(text: seq<char>, pat: seq<char>, rep: seq<char>): seq<char>
    requires |pat| > 0
    decreases |text|
  {
    if |text| < |pat| then text
    else if OccursAt(text, pat, 0) then rep + Replace(text[|pat|..], pat, rep)
    else [text[0]] + Replace(text[1..], pat, rep)
  }

  /** Where the pattern never occurs, str.replace returns the text unchanged. */
  lemma {:induction false} ReplaceAbsent(text: seq<char>, pat: seq<char>, rep: seq<char>)
    requires |pat| > 0
    requires forall k :: !OccursAt(text, pat, k)
    ensures Replace(text, pat, rep) == text
    decreases |text|
  {
    if |text| >= |pat| {
      assert !OccursAt(text, pat, 0);
      forall k ensures !OccursAt(text[1..], pat, k) {
        OccursInTail(text, pat, k);
      }
      ReplaceAbsent(text[1..], pat, rep);
    }
  }

  /**
   * str.replace replaces the first occurrence str.find locates and carries on
   * after it: with none, the text comes back unchanged; otherwise the text
   * before it is kept, `rep` takes its place, and the rest is replaced in turn.
   */
  lemma {:induction false} ReplaceAtFirst(text: seq<char>, pat: seq<char>, rep: seq<char>)
    requires |pat| > 0
    ensures var i := Find(text, pat, 0);
      Replace(text, pat, rep) == if i == -1 then text else text[..i] + rep + Replace(text[i + |pat|..], pat, rep)
    decreases |text|
  {
    if |text| >= |pat| && !OccursAt(text, pat, 0) {
      ReplaceAtFirst(text[1..], pat, rep);
      ReplaceAtFirstStep(text, pat, rep);
    }
  }

  /** The step of ReplaceAtFirst past a first character that starts no occurrence, given the claim for text[1..]. */
  lemma ReplaceAtFirstStep(text: seq<char>, pat: seq<char>, rep: seq<char>)
    requires 0 < |pat| <= |text| && !OccursAt(text, pat, 0)
    requires var j := Find(text[1..], pat, 0);
      Replace(text[1..], pat, rep) ==
        if j == -1 then text[1..] else text[1..][..j] + rep + Replace(text[1..][j + |pat|..], pat, rep)
    ensures var i := Find(text, pat, 0);
      Replace(text, pat, rep) == if i == -1 then text else text[..i] + rep + Replace(text[i + |pat|..], pat, rep)
  {
    ReplaceSkipsFirst(text, pat, rep);
    var j := Find(text[1..], pat, 0);
    var r := Replace(text, pat, rep);
    if j == -1 {
      assert r == [text[0]] + text[1..] == text;
    } else {
      var i := j + 1;
      var rest := Replace(text[1..][j + |pat|..], pat, rep);
      ConsBeforeSplice(text, j, |pat|, rep, rest);
      assert r == text[..i] + rep + rest;
      assert rest == Replace(text[i + |pat|..], pat, rep);
    }
  }

  /** Where the pattern does not start the text, str.replace keeps the first character and str.find looks one further on. */
  lemma ReplaceSkipsFirst(text: seq<char>, pat: seq<char>, rep: seq<char>)
    requires 0 < |pat| <= |text| && !OccursAt(text, pat, 0)
    ensures Replace(text, pat, rep) == [text[0]] + Replace(text[1..], pat, rep)
    ensures var j := Find(text[1..], pat, 0);
      Find(text, pat, 0) == if j == -1 then -1 else j + 1
  {
    assert text[1..] == text[1..][0..];
    FindInSharedSuffix(text, text[1..], pat, 1, 0);
  }

  /** Putting the first character back in front of a splice of text[1..] is the same splice of text. */
  lemma ConsBeforeSplice(text: seq<char>, j: nat, n: nat, rep: seq<char>, rest: seq<char>)
    requires 0 < |text| && j + n < |text|
    ensures [text[0]] + (text[1..][..j] + rep + rest) == text[..j + 1] + rep + rest
    ensures text[1..][j + n..] == text[j + 1 + n..]
  {
    assert [text[0]] + text[1..][..j] == text[..j + 1];
  }

  /** An occurrence in text[1..] is an occurrence in text, one index further on. */
  lemma OccursInTail(text: seq<char>, pat: seq<char>, k: int)
    requires |text| > 0
    ensures OccursAt(text[1..], pat, k) ==> OccursAt(text, pat, k + 1)
  {
    if OccursAt(text[1..], pat, k) {
      OccursAtIsSlice(text[1..], pat, k);
      OccursAtIsSlice(text, pat, k + 1);
      assert text[k + 1..k + 1 + |pat|] == text[1..][k..k + |pat|];
    }
  }

  /** Replacing a pattern by itself changes nothing. */
  lemma {:induction false} ReplaceBySelf(text: seq<char>, pat: seq<char>)
    requires |pat| > 0
    ensures Replace(text, pat, pat) == text
    decreases |text|
  {
    if |text| >= |pat| {
      if OccursAt(text, pat, 0) {
        OccursAtIsSlice(text, pat, 0);
        ReplaceBySelf(text[|pat|..], pat);
        assert text == text[..|pat|] + text[|pat|..];
      } else {
        ReplaceBySelf(text[1..], pat);
        assert text == [text[0]] + text[1..];
      }
    }
  }

  /** Python's s[:k] for k >= 0: the slice is clamped to the length. */
  function Take(s: seq<char>, k: nat): (r: seq<char>)
    ensures |r| == if k <= |s| then k else |s|
    ensures r <= s
  {
    if k <= |s| then s[..k] else s
  }

  /** Python's s[k:] for k >= 0: empty once k reaches the length. */
  function Drop(s: seq<char>, k: nat): seq<char> {
    if k <= |s| then s[k..] else []
  }

  /** s[:k] + s[k:] == s for every k >= 0. */
  lemma TakeDrop(s: seq<char>, k: nat)
    ensures Take(s, k) + Drop(s, k) == s
  {
    if k <= |s| {
      assert s[..k] + s[k..] == s;
    }
  }
}
