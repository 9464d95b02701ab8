/**
 * The find/replace engine of the Find/Replace dialog: FindNext with its
 * session cursor and user-confirmed wraparound, and ReplaceAll.
 * The literal paths are modelled exactly; the regular-expression engine is an
 * uninterpreted function handed in by the caller.
 */
module Search {
  import opened Wrappers
  import opened TextOps

  /** The dialog's three check boxes. */
  datatype Options = Options(matchCase: bool, matchWholeWord: bool, useRegex: bool)

  /** What re.search reports: no match, a match starting at `start`, or a pattern that does not compile. */
  datatype RegexSearch = NoMatch | MatchAt(start: nat) | InvalidPattern

  /** Pattern and scope text are both lower-cased when Match Case is off. */
  function Fold(s: seq<char>, matchCase: bool): (r: seq<char>)
    ensures |r| == |s|
    ensures matchCase ==> r == s
  {
    if matchCase then s else Lower(s)
  }

  /** The character before index i; the start of the buffer reads as ' '. */
  function CharBefore(text: seq<char>, i: int): char
    requires 0 <= i <= |text|
  {
    if i > 0 then text[i - 1] else ' '
  }

  /** The character at index j; the end of the buffer reads as ' '. */
  function CharAtOrSpace(text: seq<char>, j: int): char
    requires 0 <= j
  {
    if j < |text| then text[j] else ' '
  }

  /** `pat` occurs at i with no alphanumeric character (buffer edges count as ' ') on either side. */
  predicate WholeWordAt(text: seq<char>, pat: seq<char>, i: int) {
    && OccursAt(text, pat, i)
    && !IsAlnum(CharBefore(text, i))
    && !IsAlnum(CharAtOrSpace(text, i + |pat|))
  }

  /** A non-empty pattern made only of alphanumeric characters: an ordinary word. */
  predicate IsWord(pat: seq<char>) {
    |pat| > 0 && forall j :: 0 <= j < |pat| ==> IsAlnum(pat[j])
  }

  // ---------------------------------------------------------------------------
  // Whole-word FindNext

  /**
   * The whole-word search loop of FindNext, run from the loop state
   * (Index, StartIndex) = (index, start); the result is the final pair.
   * A candidate rejected at the boundary check moves StartIndex to its end,
   * and Index keeps that candidate when the loop runs off the end of the text.
   */
  function ScanFrom(text: seq<char>, pat: seq<char>, index: int, start: nat): (r: (int, nat))
    requires |pat| > 0 && index >= -1
    ensures r.0 >= -1 && start <= r.1
    decreases |text| - start
  {
    if start >= |text| then (index, start)
    else
      var i := Find(text, pat, start);
      if i == -1 then (-1, start)
      else if WholeWordAt(text, pat, i) then (i, start)
      else ScanFrom(text, pat, i, i + |pat|)
  }

  /**
   * What the whole-word loop returns: -1 or an occurrence; an occurrence that
   * fails the boundary check is returned only when it ends exactly at the end
   * of the text, and then the loop has stopped there.
   */
  lemma {:induction false} ScanSound(text: seq<char>, pat: seq<char>, index: int, start: nat)
    requires |pat| > 0
    requires index == -1 || (OccursAt(text, pat, index) && index + |pat| == start && !WholeWordAt(text, pat, index))
    ensures var (r, stop) := ScanFrom(text, pat, index, start);
      && (r == -1 || OccursAt(text, pat, r))
      && (r != -1 && r != index ==> start <= r)
      && (r != -1 && !WholeWordAt(text, pat, r) ==> r + |pat| == |text| && stop == |text|)
    decreases |text| - start
  {
    if start < |text| {
      var i := Find(text, pat, start);
      FindIsFirst(text, pat, start);
      if i != -1 && !WholeWordAt(text, pat, i) {
        ScanSound(text, pat, i, i + |pat|);
      }
    }
  }

  /**
   * For a word pattern the loop skips no whole-word occurrence: the only
   * occurrences it jumps over overlap a rejected candidate, and those are
   * preceded by a letter or digit of that candidate.
   */
  lemma {:induction false} ScanMissesNoWholeWord(text: seq<char>, pat: seq<char>, index: int, start: nat)
    requires IsWord(pat) && index >= -1
    ensures var r := ScanFrom(text, pat, index, start).0;
      forall k :: start <= k && WholeWordAt(text, pat, k) ==> r != -1 && r <= k
    decreases |text| - start
  {
    if start < |text| {
      var i := Find(text, pat, start);
      FindIsFirst(text, pat, start);
      if i != -1 && !WholeWordAt(text, pat, i) {
        ScanMissesNoWholeWord(text, pat, i, i + |pat|);
        RejectedCandidateGap(text, pat, start, i);
      }
    }
  }

  /**
   * Whole-word FindNext from `start`: any index it returns is an occurrence at
   * or after `start`, a whole-word one unless it ends at the end of the text;
   * for a word pattern, whenever a whole-word occurrence exists at or after
   * `start`, the index returned is the first of them.
   */
  lemma WholeWordScanMeaning(text: seq<char>, pat: seq<char>, start: nat)
    requires |pat| > 0
    ensures var (r, stop) := ScanFrom(text, pat, -1, start);
      && (r == -1 || (start <= r && OccursAt(text, pat, r)))
      && (r != -1 ==> WholeWordAt(text, pat, r) || (r + |pat| == |text| && stop == |text|))
      && (IsWord(pat) ==> forall k :: start <= k && WholeWordAt(text, pat, k) ==> WholeWordAt(text, pat, r) && r <= k)
  {
    ScanSound(text, pat, -1, start);
    if IsWord(pat) {
      ScanMissesNoWholeWord(text, pat, -1, start);
    }
  }

  /**
   * The end-of-text quirk, as the loop has it: when the first occurrence at
   * or after `start` fails the boundary check but ends at the end of the
   * text, the loop stops with Index still on it, so it is returned as a match.
   */
  lemma ScanKeepsEndCandidate(text: seq<char>, pat: seq<char>, start: nat, i: int)
    requires |pat| > 0 && i == Find(text, pat, start) && i != -1
    requires i + |pat| == |text| && !WholeWordAt(text, pat, i)
    ensures ScanFrom(text, pat, -1, start) == (i, |text|)
  {
    FindIsFirst(text, pat, start);
  }

  /** The whole-word search loop of FindNext, proved equal to ScanFrom. */
  method ScanWholeWord(text: seq<char>, pat: seq<char>, start: nat) returns (index: int, stop: nat)
    requires |pat| > 0
    ensures (index, stop) == ScanFrom(text, pat, -1, start)
  {
    index, stop := -1, start;
    while stop < |text|
      invariant index >= -1
      invariant ScanFrom(text, pat, index, stop) == ScanFrom(text, pat, -1, start)
      decreases |text| - stop
    {
      index := Find(text, pat, stop);
      if index == -1 {
        break;
      }
      if WholeWordAt(text, pat, index) {
        break;
      }
      stop := index + |pat|;
    }
  }

  // ---------------------------------------------------------------------------
  // Whole-word ReplaceAll

  /**
   * The whole-word ReplaceAll loop, read against the ORIGINAL text: NewText is
   * always `acc + text[p..]` with StartIndex == |acc|, because a replacement
   * only rewrites what lies before the point where the scan resumes.
   * The character before a candidate comes from `acc` when the candidate
   * starts right at the resume point, so it may be the last character of an
   * earlier replacement.
   */
  function ReplacedFrom(text: seq<char>, pat: seq<char>, rep: seq<char>, p: nat, acc: seq<char>): seq<char>
    requires |pat| > 0 && p <= |text|
    decreases |text| - p
  {
    if p == |text| then acc
    else
      var i := Find(text, pat, p);
      if i == -1 then acc + text[p..]
      else ReplacedFrom(text, pat, rep, i + |pat|, Resumed(text, pat, rep, p, acc, i))
  }

  /**
   * What has been built once the candidate at i (the first occurrence at or
   * after p) is dealt with: the gap before it, then either the replacement or
   * the candidate itself, depending on the boundary check made on NewText.
   */
  function Resumed(text: seq<char>, pat: seq<char>, rep: seq<char>, p: nat, acc: seq<char>, i: nat): seq<char>
    requires p <= i && i + |pat| <= |text|
  {
    var before := if i > p then text[i - 1] else if |acc| > 0 then acc[|acc| - 1] else ' ';
    if !IsAlnum(before) && !IsAlnum(CharAtOrSpace(text, i + |pat|)) then acc + text[p..i] + rep
    else acc + text[p..i + |pat|]
  }

  /**
   * The whole-word ReplaceAll loop as written, on its own state (NewText,
   * StartIndex): each candidate that passes the boundary check on NewText is
   * spliced out for `rep` and the scan resumes after the replacement; any
   * other candidate is stepped over.
   */
  function WholeWordPass(newText: seq<char>, pat: seq<char>, rep: seq<char>, start: nat): seq<char>
    requires |pat| > 0
    decreases |newText| - start
  {
    if start >= |newText| then newText
    else
      var index := Find(newText, pat, start);
      if index == -1 then newText
      else
        var next := PassNext(newText, pat, rep, index);
        WholeWordPass(next.0, pat, rep, next.1)
  }

  /**
   * One candidate of the whole-word pass: spliced out for `rep` when it stands
   * between word boundaries, stepped over otherwise. Either way the text still
   * to be scanned is what followed the candidate.
   */
  function PassNext(newText: seq<char>, pat: seq<char>, rep: seq<char>, index: nat): (next: (seq<char>, nat))
    requires index + |pat| <= |newText|
    ensures next.1 <= |next.0| && next.0[next.1..] == newText[index + |pat|..]
  {
    if !IsAlnum(CharBefore(newText, index)) && !IsAlnum(CharAtOrSpace(newText, index + |pat|)) then
      (newText[..index] + rep + newText[index + |pat|..], index + |rep|)
    else (newText, index + |pat|)
  }

  /** The whole-word ReplaceAll loop, proved equal to WholeWordPass from the start of the text. */
  method ReplaceWholeWords(text: seq<char>, pat: seq<char>, rep: seq<char>) returns (newText: seq<char>)
    requires |pat| > 0
    ensures newText == WholeWordPass(text, pat, rep, 0)
  {
    newText := text;
    var start: nat := 0;
    while start < |newText|
      invariant WholeWordPass(newText, pat, rep, start) == WholeWordPass(text, pat, rep, 0)
      decreases |newText| - start
    {
      var index := Find(newText, pat, start);
      if index == -1 {
        break;
      }
      var before := if index > 0 then newText[index - 1] else ' ';
      var after := if index + |pat| < |newText| then newText[index + |pat|] else ' ';
      var boundary := !IsAlnum(before) && !IsAlnum(after);
      var newText', start' := newText, index + |pat|;
      if boundary {
        newText', start' := newText[..index] + rep + newText[index + |pat|..], index + |rep|;
      }
      PassStep(newText, pat, rep, start, index, boundary, newText', start');
      newText, start := newText', start';
    }
  }

  /**
   * The loop's NewText is always the accumulated text followed by the unread
   * rest of the original, so the pass computes ReplacedFrom.
   */
  lemma {:induction false} PassIsReplacedFrom(text: seq<char>, pat: seq<char>, rep: seq<char>, p: nat, acc: seq<char>, t: seq<char>)
    requires |pat| > 0 && p <= |text| && t == acc + text[p..]
    ensures WholeWordPass(t, pat, rep, |acc|) == ReplacedFrom(text, pat, rep, p, acc)
    decreases |text| - p
  {
    if p == |text| || Find(text, pat, p) == -1 {
      PassNoCandidate(text, pat, rep, p, acc, t);
    } else {
      var i := Find(text, pat, p);
      var r := Resumed(text, pat, rep, p, acc, i);
      var t' := r + text[i + |pat|..];
      PassIsReplacedFrom(text, pat, rep, i + |pat|, r, t');
      PassCandidate(text, pat, rep, p, acc, i, r, t, t');
    }
  }

  /** At the end of the text, or with no candidate left, both leave NewText as it is. */
  lemma PassNoCandidate(text: seq<char>, pat: seq<char>, rep: seq<char>, p: nat, acc: seq<char>, t: seq<char>)
    requires |pat| > 0 && p <= |text| && (p == |text| || Find(text, pat, p) == -1) && t == acc + text[p..]
    ensures WholeWordPass(t, pat, rep, |acc|) == ReplacedFrom(text, pat, rep, p, acc)
  {
    if p == |text| {
      assert t == acc;
    } else {
      FindOnRest(text, pat, p, acc);
    }
  }

  /** A candidate step of the pass, given the agreement from the end of the candidate on. */
  lemma PassCandidate(text: seq<char>, pat: seq<char>, rep: seq<char>, p: nat, acc: seq<char>, i: nat, r: seq<char>,
                      t: seq<char>, t': seq<char>)
    requires |pat| > 0 && p < |text| && i == Find(text, pat, p) && t == acc + text[p..]
    requires r == Resumed(text, pat, rep, p, acc, i) && t' == r + text[i + |pat|..]
    requires WholeWordPass(t', pat, rep, |r|) == ReplacedFrom(text, pat, rep, i + |pat|, r)
    ensures WholeWordPass(t, pat, rep, |acc|) == ReplacedFrom(text, pat, rep, p, acc)
  {
    FindOnRest(text, pat, p, acc);
    FindIsFirst(text, pat, p);
    var index := i - p + |acc|;
    var boundary := !IsAlnum(CharBefore(t, index)) && !IsAlnum(CharAtOrSpace(t, index + |pat|));
    ResumedOnRest(text, pat, rep, p, acc, i, t, index, boundary);
    PassStep(t, pat, rep, |acc|, index, boundary, t', |r|);
    ReplacedFromNext(text, pat, rep, p, acc, i);
  }

  /** One step of WholeWordPass, given where the candidate is and what the boundary check says. */
  lemma PassStep(t: seq<char>, pat: seq<char>, rep: seq<char>, start: nat, index: nat, boundary: bool, t': seq<char>, start': nat)
    requires |pat| > 0 && start < |t| && index == Find(t, pat, start)
    requires boundary == (!IsAlnum(CharBefore(t, index)) && !IsAlnum(CharAtOrSpace(t, index + |pat|)))
    requires boundary ==> t' == t[..index] + rep + t[index + |pat|..] && start' == index + |rep|
    requires !boundary ==> t' == t && start' == index + |pat|
    ensures WholeWordPass(t, pat, rep, start) == WholeWordPass(t', pat, rep, start')
  {
    PassNextIs(t, pat, rep, index, boundary, t', start');
  }

  /** The step PassNext takes is the splice or the skip, by the boundary check. */
  lemma PassNextIs(t: seq<char>, pat: seq<char>, rep: seq<char>, index: nat, boundary: bool, t': seq<char>, start': nat)
    requires index + |pat| <= |t|
    requires boundary == (!IsAlnum(CharBefore(t, index)) && !IsAlnum(CharAtOrSpace(t, index + |pat|)))
    requires boundary ==> t' == t[..index] + rep + t[index + |pat|..] && start' == index + |rep|
    requires !boundary ==> t' == t && start' == index + |pat|
    ensures PassNext(t, pat, rep, index) == (t', start')
  {
  }

  /** Searching NewText from StartIndex finds the original text's next occurrence, shifted. */
  lemma FindOnRest(text: seq<char>, pat: seq<char>, p: nat, acc: seq<char>)
    requires p <= |text|
    ensures var i := Find(acc + text[p..], pat, |acc|);
      && (i == -1 <==> Find(text, pat, p) == -1)
      && (i != -1 ==> i == Find(text, pat, p) - p + |acc|)
  {
    var t := acc + text[p..];
    assert t[|acc|..] == text[p..];
    FindInSharedSuffix(t, text, pat, |acc|, p);
  }

  /** ReplacedFrom moves on from p to the end of the first candidate. */
  lemma ReplacedFromNext(text: seq<char>, pat: seq<char>, rep: seq<char>, p: nat, acc: seq<char>, i: nat)
    requires |pat| > 0 && p < |text| && i == Find(text, pat, p)
    ensures p <= i && i + |pat| <= |text|
    ensures ReplacedFrom(text, pat, rep, p, acc) == ReplacedFrom(text, pat, rep, i + |pat|, Resumed(text, pat, rep, p, acc, i))
  {
  }

  /**
   * One pass of the loop body on NewText == acc + text[p..]: the boundary
   * check at the candidate reads the same characters as Resumed, and the
   * text after the pass is the new accumulated text followed by the unread
   * rest of the original, with StartIndex at its end.
   */
  lemma ResumedOnRest(text: seq<char>, pat: seq<char>, rep: seq<char>, p: nat, acc: seq<char>, i: nat,
                       t: seq<char>, index: nat, boundary: bool)
    requires p <= i && OccursAt(text, pat, i) && t == acc + text[p..] && index == i - p + |acc|
    requires boundary == (!IsAlnum(CharBefore(t, index)) && !IsAlnum(CharAtOrSpace(t, index + |pat|)))
    ensures var r := Resumed(text, pat, rep, p, acc, i);
      && (boundary ==> t[..index] + rep + t[index + |pat|..] == r + text[i + |pat|..])
      && (!boundary ==> t == r + text[i + |pat|..])
      && |r| == if boundary then index + |rep| else index + |pat|
  {
    RestChars(text, pat, p, acc, i, t, index);
    SplitRest(text, pat, p, i, acc, t, index);
  }

  /** The characters around the candidate in NewText, read from the original text or from `acc`. */
  lemma RestChars(text: seq<char>, pat: seq<char>, p: nat, acc: seq<char>, i: nat, t: seq<char>, index: nat)
    requires p <= i && i + |pat| <= |text| && t == acc + text[p..] && index == i - p + |acc|
    ensures CharBefore(t, index) == if i > p then text[i - 1] else if |acc| > 0 then acc[|acc| - 1] else ' '
    ensures CharAtOrSpace(t, index + |pat|) == CharAtOrSpace(text, i + |pat|)
  {
  }

  /** NewText cut around the candidate at i in the original text. */
  lemma SplitRest(text: seq<char>, pat: seq<char>, p: nat, i: nat, acc: seq<char>, t: seq<char>, index: nat)
    requires p <= i && i + |pat| <= |text| && t == acc + text[p..] && index == i - p + |acc|
    ensures t[..index] == acc + text[p..i]
    ensures t[index + |pat|..] == text[i + |pat|..]
    ensures t == acc + text[p..i + |pat|] + text[i + |pat|..]
  {
    assert text[p..] == text[p..i + |pat|] + text[i + |pat|..];
  }

  /**
   * The intended meaning of whole-word replacement: every whole-word
   * occurrence of `pat` in the original text, taken left to right without
   * overlap, replaced by `rep`.
   */
  function ReplaceEachWholeWord(text: seq<char>, pat: seq<char>, rep: seq<char>, p: nat): seq<char>
    requires |pat| > 0 && p <= |text|
    decreases |text| - p
  {
    if p == |text| then []
    else if WholeWordAt(text, pat, p) then rep + ReplaceEachWholeWord(text, pat, rep, p + |pat|)
    else [text[p]] + ReplaceEachWholeWord(text, pat, rep, p + 1)
  }

  /** A stretch holding no whole-word occurrence is copied unchanged. */
  lemma {:induction false} EachWholeWordCopiesGap(text: seq<char>, pat: seq<char>, rep: seq<char>, p: nat, q: nat)
    requires |pat| > 0 && p <= q <= |text|
    requires forall k :: p <= k < q ==> !WholeWordAt(text, pat, k)
    ensures ReplaceEachWholeWord(text, pat, rep, p) == text[p..q] + ReplaceEachWholeWord(text, pat, rep, q)
    decreases q - p
  {
    if p < q {
      var rest := ReplaceEachWholeWord(text, pat, rep, q);
      calc {
        ReplaceEachWholeWord(text, pat, rep, p);
        [text[p]] + ReplaceEachWholeWord(text, pat, rep, p + 1);
        { EachWholeWordCopiesGap(text, pat, rep, p + 1, q); }
        [text[p]] + (text[p + 1..q] + rest);
        { assert text[p..q] == [text[p]] + text[p + 1..q]; }
        text[p..q] + rest;
      }
    }
  }

  /**
   * The loop's state (p, acc) is consistent with the original text: either
   * nothing has been scanned, or the character after the last replacement is
   * not alphanumeric, or `acc` ends with the original character before p.
   */
  predicate ScanContext(text: seq<char>, p: nat, acc: seq<char>)
    requires p <= |text|
  {
    || (p == 0 && acc == [])
    || (p > 0 && !IsAlnum(CharAtOrSpace(text, p)))
    || (p > 0 && |acc| > 0 && acc[|acc| - 1] == text[p - 1])
  }

  /**
   * For a word pattern, a candidate that fails the boundary check hides no
   * whole-word occurrence up to its end: the occurrences overlapping it
   * follow one of its own letters or digits.
   */
  lemma RejectedCandidateGap(text: seq<char>, pat: seq<char>, p: nat, i: nat)
    requires IsWord(pat) && p <= i
    requires OccursAt(text, pat, i) && !WholeWordAt(text, pat, i)
    requires forall k :: p <= k < i ==> !OccursAt(text, pat, k)
    ensures forall k :: p <= k < i + |pat| ==> !WholeWordAt(text, pat, k)
  {
    OccursAtChars(text, pat, i);
    forall k | i < k < i + |pat| && OccursAt(text, pat, k)
      ensures !WholeWordAt(text, pat, k)
    {
      assert text[i + (k - 1 - i)] == pat[k - 1 - i];
    }
  }

  /**
   * One step of ReplacedFrom in a consistent context: the boundary check on
   * NewText agrees with the whole-word check on the original text.
   */
  lemma ResumedChecksWholeWord(text: seq<char>, pat: seq<char>, rep: seq<char>, p: nat, acc: seq<char>, i: nat)
    requires IsWord(pat) && p <= i && OccursAt(text, pat, i) && ScanContext(text, p, acc)
    ensures Resumed(text, pat, rep, p, acc, i) ==
      if WholeWordAt(text, pat, i) then acc + text[p..i] + rep else acc + text[p..i + |pat|]
  {
    var before := if i > p then text[i - 1] else if |acc| > 0 then acc[|acc| - 1] else ' ';
    assert before == CharBefore(text, i) by {
      if i == p && p > 0 {
        OccursAtChars(text, pat, i);
        assert text[i + 0] == pat[0];
      }
    }
  }

  /**
   * The candidate step against the reference: what Resumed builds, followed
   * by the reference from the end of the candidate, is what the reference
   * builds from p; and the new state is again consistent.
   */
  lemma EachWholeWordStep(text: seq<char>, pat: seq<char>, rep: seq<char>, p: nat, acc: seq<char>, i: nat)
    requires IsWord(pat) && p < |text| && ScanContext(text, p, acc) && i == Find(text, pat, p)
    ensures p <= i && i + |pat| <= |text|
    ensures var r := Resumed(text, pat, rep, p, acc, i);
      && ScanContext(text, i + |pat|, r)
      && r + ReplaceEachWholeWord(text, pat, rep, i + |pat|) == acc + ReplaceEachWholeWord(text, pat, rep, p)
  {
    FindIsFirst(text, pat, p);
    var r := Resumed(text, pat, rep, p, acc, i);
    ResumedChecksWholeWord(text, pat, rep, p, acc, i);
    if WholeWordAt(text, pat, i) {
      AcceptedCandidateStep(text, pat, rep, p, acc, i, r);
    } else {
      RejectedCandidateStep(text, pat, rep, p, acc, i, r);
    }
  }

  /** A whole-word candidate: the reference copies the gap, then puts `rep` for the candidate. */
  lemma AcceptedCandidateStep(text: seq<char>, pat: seq<char>, rep: seq<char>, p: nat, acc: seq<char>, i: nat, r: seq<char>)
    requires |pat| > 0 && p <= i && WholeWordAt(text, pat, i)
    requires forall k :: p <= k < i ==> !OccursAt(text, pat, k)
    requires r == acc + text[p..i] + rep
    ensures ScanContext(text, i + |pat|, r)
    ensures r + ReplaceEachWholeWord(text, pat, rep, i + |pat|) == acc + ReplaceEachWholeWord(text, pat, rep, p)
  {
    var rest := ReplaceEachWholeWord(text, pat, rep, i + |pat|);
    EachWholeWordCopiesGap(text, pat, rep, p, i);
    assert ReplaceEachWholeWord(text, pat, rep, i) == rep + rest;
    assert r + rest == acc + (text[p..i] + (rep + rest));
  }

  /** A rejected candidate of a word pattern: the reference copies everything up to its end. */
  lemma RejectedCandidateStep(text: seq<char>, pat: seq<char>, rep: seq<char>, p: nat, acc: seq<char>, i: nat, r: seq<char>)
    requires IsWord(pat) && p <= i && OccursAt(text, pat, i) && !WholeWordAt(text, pat, i)
    requires forall k :: p <= k < i ==> !OccursAt(text, pat, k)
    requires r == acc + text[p..i + |pat|]
    ensures ScanContext(text, i + |pat|, r)
    ensures r + ReplaceEachWholeWord(text, pat, rep, i + |pat|) == acc + ReplaceEachWholeWord(text, pat, rep, p)
  {
    var q := i + |pat|;
    RejectedContext(text, p, q, acc, r);
    RejectedGapCopied(text, pat, rep, p, i);
    ConcatAssoc(acc, text[p..q], ReplaceEachWholeWord(text, pat, rep, q));
  }

  /** (a + b) + c == a + (b + c), stated for the terms the reference steps build. */
  lemma ConcatAssoc(a: seq<char>, b: seq<char>, c: seq<char>)
    ensures (a + b) + c == a + (b + c)
  {
  }

  /** After a rejected candidate ending at q, the accumulated text ends with the original character before q. */
  lemma RejectedContext(text: seq<char>, p: nat, q: nat, acc: seq<char>, r: seq<char>)
    requires p < q <= |text| && r == acc + text[p..q]
    ensures ScanContext(text, q, r)
  {
    assert r[|r| - 1] == text[q - 1];
  }

  /** The reference copies a rejected candidate of a word pattern, and the gap before it, unchanged. */
  lemma RejectedGapCopied(text: seq<char>, pat: seq<char>, rep: seq<char>, p: nat, i: nat)
    requires IsWord(pat) && p <= i && OccursAt(text, pat, i) && !WholeWordAt(text, pat, i)
    requires forall k :: p <= k < i ==> !OccursAt(text, pat, k)
    ensures i + |pat| <= |text|
    ensures ReplaceEachWholeWord(text, pat, rep, p) ==
      text[p..i + |pat|] + ReplaceEachWholeWord(text, pat, rep, i + |pat|)
  {
    RejectedCandidateGap(text, pat, p, i);
    EachWholeWordCopiesGap(text, pat, rep, p, i + |pat|);
  }

  /** From any consistent state, ReplacedFrom builds the reference replacement. */
  lemma {:induction false} ReplacedFromIsEachWholeWord(text: seq<char>, pat: seq<char>, rep: seq<char>, p: nat, acc: seq<char>)
    requires IsWord(pat) && p <= |text| && ScanContext(text, p, acc)
    ensures ReplacedFrom(text, pat, rep, p, acc) == acc + ReplaceEachWholeWord(text, pat, rep, p)
    decreases |text| - p
  {
    if p < |text| {
      var i := Find(text, pat, p);
      if i == -1 {
        NoCandidateEachWholeWord(text, pat, rep, p, acc);
      } else {
        var r := Resumed(text, pat, rep, p, acc, i);
        EachWholeWordStep(text, pat, rep, p, acc, i);
        ReplacedFromIsEachWholeWord(text, pat, rep, i + |pat|, r);
        CandidateEachWholeWord(text, pat, rep, p, acc, i, r);
      }
    }
  }

  /** With no candidate left, both copy the rest of the text. */
  lemma NoCandidateEachWholeWord(text: seq<char>, pat: seq<char>, rep: seq<char>, p: nat, acc: seq<char>)
    requires |pat| > 0 && p < |text| && Find(text, pat, p) == -1
    ensures ReplacedFrom(text, pat, rep, p, acc) == acc + ReplaceEachWholeWord(text, pat, rep, p)
  {
    FindIsFirst(text, pat, p);
    EachWholeWordCopiesGap(text, pat, rep, p, |text|);
    assert text[p..|text|] + ReplaceEachWholeWord(text, pat, rep, |text|) == text[p..];
  }

  /** A candidate step, given the agreement from the end of the candidate on. */
  lemma CandidateEachWholeWord(text: seq<char>, pat: seq<char>, rep: seq<char>, p: nat, acc: seq<char>, i: nat, r: seq<char>)
    requires IsWord(pat) && p < |text| && ScanContext(text, p, acc) && i == Find(text, pat, p)
    requires r == Resumed(text, pat, rep, p, acc, i)
    requires ReplacedFrom(text, pat, rep, i + |pat|, r) == r + ReplaceEachWholeWord(text, pat, rep, i + |pat|)
    ensures ReplacedFrom(text, pat, rep, p, acc) == acc + ReplaceEachWholeWord(text, pat, rep, p)
  {
    ReplacedFromNext(text, pat, rep, p, acc, i);
    EachWholeWordStep(text, pat, rep, p, acc, i);
  }

  /**
   * For a word pattern, whole-word ReplaceAll replaces exactly the whole-word
   * occurrences of the original text: resuming after the inserted text never
   * changes which occurrences qualify.
   */
  lemma WholeWordReplaceMeaning(text: seq<char>, pat: seq<char>, rep: seq<char>)
    requires IsWord(pat)
    ensures WholeWordPass(text, pat, rep, 0) == ReplaceEachWholeWord(text, pat, rep, 0)
  {
    PassFromStart(text, pat, rep);
    ReplacedFromIsEachWholeWord(text, pat, rep, 0, []);
  }

  /**
   * The word-pattern condition is needed: the loop judges the character
   * before a candidate in the text it is rewriting, so a pattern that does
   * not start with a letter or digit can become a whole word next to an
   * earlier replacement. In ".a.a" the second ".a" follows the letter 'a' and
   * is not a whole word, yet the pass replaces it.
   */
  lemma WholeWordPassSeesReplacements()
    ensures WholeWordPass(".a.a", ".a", "-", 0) == "--"
    ensures ReplaceEachWholeWord(".a.a", ".a", "-", 0) == "-.a"
  {
    var text, pat, rep := ".a.a", ".a", "-";
    assert !IsAlnum('.') && !IsAlnum('-') && !IsAlnum(' ') && IsAlnum('a');
    assert OccursAt(text, pat, 0) && Find(text, pat, 0) == 0;
    assert text[..0] + rep + text[2..] == "-.a";
    assert PassNext(text, pat, rep, 0) == ("-.a", 1);
    assert OccursAt("-.a", pat, 1) && Find("-.a", pat, 1) == 1;
    assert "-.a"[..1] + rep + "-.a"[3..] == "--";
    assert PassNext("-.a", pat, rep, 1) == ("--", 2);
    assert WholeWordPass("--", pat, rep, 2) == "--";
    assert WholeWordPass("-.a", pat, rep, 1) == "--";
    assert ReplaceEachWholeWord(text, pat, rep, 4) == [];
    assert ReplaceEachWholeWord(text, pat, rep, 3) == "a";
    assert !WholeWordAt(text, pat, 2);
    assert ReplaceEachWholeWord(text, pat, rep, 2) == ".a";
    assert WholeWordAt(text, pat, 0);
  }

  /** The pass over the whole text is ReplacedFrom with nothing built yet. */
  lemma PassFromStart(text: seq<char>, pat: seq<char>, rep: seq<char>)
    requires |pat| > 0
    ensures WholeWordPass(text, pat, rep, 0) == ReplacedFrom(text, pat, rep, 0, [])
  {
    PassIsReplacedFrom(text, pat, rep, 0, [], text);
    assert [] + text[0..] == text;
  }

  /** When the pattern replaces itself, a step of ReplacedFrom keeps the accumulated text equal to the text scanned so far. */
  lemma ResumedBySelf(text: seq<char>, pat: seq<char>, p: nat, i: nat)
    requires p <= i && OccursAt(text, pat, i)
    ensures Resumed(text, pat, pat, p, text[..p], i) == text[..i + |pat|]
  {
    var q := i + |pat|;
    OccursAtIsSlice(text, pat, i);
    assert text[..q] == text[..p] + text[p..i] + text[i..q];
    assert text[..p] + text[p..q] == text[..q];
  }

  /** A sequence is its prefix followed by the matching suffix. */
  lemma SplitAt(s: seq<char>, p: nat)
    requires p <= |s|
    ensures s[..p] + s[p..] == s
  {
  }

  /** Replacing a pattern by itself, whole words only, leaves the text as it was. */
  lemma {:induction false} ReplacedFromBySelf(text: seq<char>, pat: seq<char>, p: nat)
    requires |pat| > 0 && p <= |text|
    ensures ReplacedFrom(text, pat, pat, p, text[..p]) == text
    decreases |text| - p
  {
    if p < |text| {
      var i := Find(text, pat, p);
      if i == -1 {
        SplitAt(text, p);
      } else {
        var q := i + |pat|;
        calc {
          ReplacedFrom(text, pat, pat, p, text[..p]);
          { ReplacedFromNext(text, pat, pat, p, text[..p], i); }
          ReplacedFrom(text, pat, pat, q, Resumed(text, pat, pat, p, text[..p], i));
          { FindIsFirst(text, pat, p);
            ResumedBySelf(text, pat, p, i); }
          ReplacedFrom(text, pat, pat, q, text[..q]);
          { ReplacedFromBySelf(text, pat, q); }
          text;
        }
      }
    } else {
      SplitAt(text, p);
    }
  }

  // ---------------------------------------------------------------------------
  // The dialog's two operations

  /** The pattern given to the regular-expression engine: wrapped in \b anchors for whole words. */
  function RegexPattern(pat: seq<char>, wholeWord: bool): seq<char> {
    if wholeWord then "\\b" + pat + "\\b" else pat
  }

  /**
   * One search attempt of FindNext on the folded scope text and pattern:
   * the final Index (-1 for none) and the final StartIndex, which decides
   * whether the wraparound prompt is offered.
   */
  function Locate(text: seq<char>, pat: seq<char>, opts: Options, start: nat,
                  search: (seq<char>, seq<char>) -> RegexSearch): (r: (int, nat))
    requires |pat| > 0
    ensures r.0 >= -1
  {
    if opts.useRegex then
      match search(RegexPattern(pat, opts.matchWholeWord), Drop(text, start))
      case MatchAt(m) => (start + m, start)
      case NoMatch => (-1, start)
      case InvalidPattern => (-1, start)
    else if opts.matchWholeWord then ScanFrom(text, pat, -1, start)
    else (Find(text, pat, start), start)
  }

  /**
   * FindNext from cursor `start`: the match selected (if any) and the new
   * session cursor. `replies` are the user's answers to successive
   * wraparound prompts; once they run out a prompt counts as declined.
   */
  function FindOutcome(scope: seq<char>, find: seq<char>, opts: Options,
                       search: (seq<char>, seq<char>) -> RegexSearch,
                       start: nat, replies: seq<bool>): (r: (Option<nat>, nat))
    decreases |replies|
  {
    if find == [] then (None, start)
    else
      var (i, stop) := Locate(Fold(scope, opts.matchCase), Fold(find, opts.matchCase), opts, start, search);
      if i != -1 then (Some(i as nat), i + |find|)
      else if stop > 0 && |replies| > 0 && replies[0] then FindOutcome(scope, find, opts, search, 0, replies[1..])
      else (None, start)
  }

  /**
   * After FindNext the cursor sits at the end of the selected match, measured
   * with the length of the search text even on the regular-expression path;
   * a literal match is an occurrence of the folded pattern in the folded
   * scope; without a match the cursor is unchanged or, after a confirmed
   * wraparound, 0.
   */
  lemma {:induction false} FindNextCursor(scope: seq<char>, find: seq<char>, opts: Options,
                                          search: (seq<char>, seq<char>) -> RegexSearch,
                                          start: nat, replies: seq<bool>)
    ensures var (hit, cursor) := FindOutcome(scope, find, opts, search, start, replies);
      && (hit.Some? ==> cursor == hit.value + |find|)
      && (hit.Some? && !opts.useRegex ==> OccursAt(Fold(scope, opts.matchCase), Fold(find, opts.matchCase), hit.value))
      && (hit.None? ==> cursor == start || cursor == 0)
    decreases |replies|
  {
    if find != [] {
      var text, pat := Fold(scope, opts.matchCase), Fold(find, opts.matchCase);
      var (i, stop) := Locate(text, pat, opts, start, search);
      if i != -1 {
        if !opts.useRegex && opts.matchWholeWord {
          WholeWordScanMeaning(text, pat, start);
        } else if !opts.useRegex {
          FindIsFirst(text, pat, start);
        }
      } else if stop > 0 && |replies| > 0 && replies[0] {
        FindNextCursor(scope, find, opts, search, 0, replies[1..]);
      }
    }
  }

  /**
   * Plain literal FindNext (no wraparound): it selects exactly the first
   * occurrence of the folded pattern at or after the cursor, and selects
   * nothing exactly when there is none.
   */
  lemma PlainFindIsFirstOccurrence(scope: seq<char>, find: seq<char>, opts: Options,
                                   search: (seq<char>, seq<char>) -> RegexSearch, start: nat)
    requires find != [] && !opts.useRegex && !opts.matchWholeWord
    ensures var hit := FindOutcome(scope, find, opts, search, start, []).0;
      var text, pat := Fold(scope, opts.matchCase), Fold(find, opts.matchCase);
      && (hit.None? <==> forall k :: start <= k ==> !OccursAt(text, pat, k))
      && (hit.Some? ==> start <= hit.value && OccursAt(text, pat, hit.value)
                        && forall k :: start <= k < hit.value ==> !OccursAt(text, pat, k))
  {
    var text, pat := Fold(scope, opts.matchCase), Fold(find, opts.matchCase);
    FindIsFirst(text, pat, start);
    OutcomeWithoutReplies(scope, find, opts, search, start, Find(text, pat, start));
  }

  /**
   * Whole-word literal FindNext (no wraparound): an index it selects that
   * does not end at the end of the scope is a whole-word occurrence; for a
   * word pattern it selects the first whole-word occurrence at or after the
   * cursor whenever there is one.
   */
  lemma WholeWordFindIsFirstWholeWord(scope: seq<char>, find: seq<char>, opts: Options,
                                      search: (seq<char>, seq<char>) -> RegexSearch, start: nat)
    requires find != [] && !opts.useRegex && opts.matchWholeWord
    ensures var hit := FindOutcome(scope, find, opts, search, start, []).0;
      var text, pat := Fold(scope, opts.matchCase), Fold(find, opts.matchCase);
      && (hit.Some? ==> start <= hit.value && OccursAt(text, pat, hit.value))
      && (hit.Some? && hit.value + |pat| < |text| ==> WholeWordAt(text, pat, hit.value))
      && (IsWord(pat) ==> forall k :: start <= k && WholeWordAt(text, pat, k) ==> hit.Some? && WholeWordAt(text, pat, hit.value) && hit.value <= k)
  {
    var text, pat := Fold(scope, opts.matchCase), Fold(find, opts.matchCase);
    OutcomeWithoutReplies(scope, find, opts, search, start, ScanFrom(text, pat, -1, start).0);
    WholeWordScanMeaning(text, pat, start);
  }

  /**
   * Whole-word FindNext selects a candidate that fails the boundary check
   * when it is the next occurrence and ends the scope (so "cat" is found in
   * "xcat"), and the cursor moves to the end of the scope.
   */
  lemma WholeWordSelectsEndCandidate(scope: seq<char>, find: seq<char>, opts: Options,
                                     search: (seq<char>, seq<char>) -> RegexSearch, start: nat, replies: seq<bool>, i: int)
    requires find != [] && !opts.useRegex && opts.matchWholeWord
    requires var text, pat := Fold(scope, opts.matchCase), Fold(find, opts.matchCase);
      && i == Find(text, pat, start) && i != -1 && i + |pat| == |text| && !WholeWordAt(text, pat, i)
    ensures FindOutcome(scope, find, opts, search, start, replies) == (Some(i as nat), |scope|)
  {
    var text, pat := Fold(scope, opts.matchCase), Fold(find, opts.matchCase);
    ScanKeepsEndCandidate(text, pat, start, i);
    OutcomeStep(scope, find, opts, search, start, replies, i, |text|);
  }

  /**
   * Plain literal FindNext with the wraparound accepted: when nothing is
   * found from the cursor, a Yes restarts the search at 0, which selects the
   * first occurrence in the whole scope (possibly before the cursor) and
   * selects nothing only when there is none; no second prompt follows.
   */
  lemma PlainWrapFindsFirstFromStart(scope: seq<char>, find: seq<char>, opts: Options,
                                     search: (seq<char>, seq<char>) -> RegexSearch, start: nat, replies: seq<bool>)
    requires find != [] && !opts.useRegex && !opts.matchWholeWord && start > 0
    requires Find(Fold(scope, opts.matchCase), Fold(find, opts.matchCase), start) == -1
    ensures var hit := FindOutcome(scope, find, opts, search, start, [true] + replies).0;
      var text, pat := Fold(scope, opts.matchCase), Fold(find, opts.matchCase);
      && (hit.None? <==> forall k :: 0 <= k ==> !OccursAt(text, pat, k))
      && (hit.Some? ==> OccursAt(text, pat, hit.value) && forall k :: 0 <= k < hit.value ==> !OccursAt(text, pat, k))
  {
    var text, pat := Fold(scope, opts.matchCase), Fold(find, opts.matchCase);
    var i := Find(text, pat, 0);
    OutcomeStep(scope, find, opts, search, start, [true] + replies, -1, start);
    assert ([true] + replies)[1..] == replies;
    OutcomeStep(scope, find, opts, search, 0, replies, i, 0);
    OutcomeStep(scope, find, opts, search, 0, [], i, 0);
    PlainFindIsFirstOccurrence(scope, find, opts, search, 0);
  }

  /** One round of FindNext: select what the search located, or wrap to 0 on a Yes, or select nothing. */
  lemma OutcomeStep(scope: seq<char>, find: seq<char>, opts: Options,
                    search: (seq<char>, seq<char>) -> RegexSearch, start: nat, replies: seq<bool>, i: int, stop: nat)
    requires find != [] && (i, stop) == Locate(Fold(scope, opts.matchCase), Fold(find, opts.matchCase), opts, start, search)
    ensures FindOutcome(scope, find, opts, search, start, replies) ==
      if i != -1 then (Some(i as nat), i + |find|)
      else if stop > 0 && |replies| > 0 && replies[0] then FindOutcome(scope, find, opts, search, 0, replies[1..])
      else (None, start)
  {
  }

  /** With no replies left to give, FindNext selects what the search located, or nothing. */
  lemma OutcomeWithoutReplies(scope: seq<char>, find: seq<char>, opts: Options,
                              search: (seq<char>, seq<char>) -> RegexSearch, start: nat, i: int)
    requires find != [] && i == Locate(Fold(scope, opts.matchCase), Fold(find, opts.matchCase), opts, start, search).0
    ensures FindOutcome(scope, find, opts, search, start, []).0 == if i == -1 then None else Some(i as nat)
  {
  }

  /**
   * Whole-word FindNext from the very start can still offer wraparound: when
   * only rejected candidates exist, StartIndex has moved past 0, and
   * answering Yes repeats the same search, which asks again.
   */
  lemma {:induction false} WholeWordWrapAsksAgain(scope: seq<char>, find: seq<char>, opts: Options,
                                                   search: (seq<char>, seq<char>) -> RegexSearch, replies: seq<bool>)
    requires find != [] && !opts.useRegex && opts.matchWholeWord
    requires var r := ScanFrom(Fold(scope, opts.matchCase), Fold(find, opts.matchCase), -1, 0); r.0 == -1 && r.1 > 0
    ensures FindOutcome(scope, find, opts, search, 0, [true] + replies) == FindOutcome(scope, find, opts, search, 0, replies)
  {
    assert ([true] + replies)[1..] == replies;
  }

  /**
   * What ReplaceAll writes back on the literal paths: the folded scope text
   * with the folded pattern replaced, whole words only or everywhere.
   */
  function LiteralReplaceAll(scope: seq<char>, find: seq<char>, rep: seq<char>, opts: Options): seq<char>
    requires find != []
  {
    var text, pat := Fold(scope, opts.matchCase), Fold(find, opts.matchCase);
    if opts.matchWholeWord then WholeWordPass(text, pat, rep, 0) else Replace(text, pat, rep)
  }

  /**
   * When the folded pattern does not occur, literal ReplaceAll writes back the
   * folded scope: with Match Case off that is the lower-cased text, even
   * though nothing was replaced.
   */
  lemma LiteralReplaceAllAbsent(scope: seq<char>, find: seq<char>, rep: seq<char>, opts: Options)
    requires find != []
    requires forall k :: !OccursAt(Fold(scope, opts.matchCase), Fold(find, opts.matchCase), k)
    ensures LiteralReplaceAll(scope, find, rep, opts) == Fold(scope, opts.matchCase)
    ensures !opts.matchCase ==> LiteralReplaceAll(scope, find, rep, opts) == Lower(scope)
  {
    var text, pat := Fold(scope, opts.matchCase), Fold(find, opts.matchCase);
    if !opts.matchWholeWord {
      ReplaceAbsent(text, pat, rep);
    } else if |text| > 0 {
      FindIsFirst(text, pat, 0);
    }
  }

  /** Replacing the search text by itself leaves a Match Case scope unchanged. */
  lemma LiteralReplaceAllBySelf(scope: seq<char>, find: seq<char>, opts: Options)
    requires find != [] && opts.matchCase
    ensures LiteralReplaceAll(scope, find, find, opts) == scope
  {
    if opts.matchWholeWord {
      PassFromStart(scope, find, find);
      ReplacedFromBySelf(scope, find, 0);
    } else {
      ReplaceBySelf(scope, find);
    }
  }

  /**
   * The search step of Find Next: the regular-expression engine on the text
   * after the cursor, the whole-word scan, or str.find. Also returns
   * StartIndex as the search left it.
   */
  method LocateNext(text: seq<char>, pat: seq<char>, opts: Options, start: nat,
                    search: (seq<char>, seq<char>) -> RegexSearch) returns (index: int, startIndex: nat)
    requires |pat| > 0
    ensures (index, startIndex) == Locate(text, pat, opts, start, search)
  {
    startIndex := start;
    if opts.useRegex {
      match search(RegexPattern(pat, opts.matchWholeWord), Drop(text, startIndex))
      case MatchAt(m) => index := startIndex + m;
      case NoMatch => index := -1;
      case InvalidPattern => index := -1;
    } else if opts.matchWholeWord {
      index, startIndex := ScanWholeWord(text, pat, startIndex);
    } else {
      index := Find(text, pat, startIndex);
    }
  }

  /** The dialog's search session: the cursor where the next FindNext starts. */
  class FindReplaceDialog {
    var currentCursorPosition: nat

    constructor ()
      ensures currentCursorPosition == 0
    {
      currentCursorPosition := 0;
    }

    /**
     * Find Next on the scope text chosen by the caller; returns the
     * scope-relative start of the selected match.
     */
    method FindNext(scope: seq<char>, find: seq<char>, opts: Options,
                    search: (seq<char>, seq<char>) -> RegexSearch, replies: seq<bool>)
      returns (hit: Option<nat>)
      modifies this
      ensures (hit, currentCursorPosition) == FindOutcome(scope, find, opts, search, old(currentCursorPosition), replies)
      decreases |replies|
    {
      if find == [] {
        return None;
      }
      var text, pat := Fold(scope, opts.matchCase), Fold(find, opts.matchCase);
      var index, startIndex := LocateNext(text, pat, opts, currentCursorPosition, search);
      OutcomeStep(scope, find, opts, search, currentCursorPosition, replies, index, startIndex);
      if index != -1 {
        hit := Some(index as nat);
        currentCursorPosition := index + |pat|;
      } else if startIndex > 0 && |replies| > 0 && replies[0] {
        currentCursorPosition := 0;
        hit := FindNext(scope, find, opts, search, replies[1..]);
      } else {
        hit := None;
      }
    }

    /**
     * Replace All on the scope text chosen by the caller; returns the text
     * written back to the editor, or None when nothing is written (empty
     * search text, or a pattern the regular-expression engine rejects).
     * `substitute` stands for re.sub(pattern, replacement, text, ignoreCase).
     */
    method ReplaceAll(scope: seq<char>, find: seq<char>, rep: seq<char>, opts: Options,
                      substitute: (seq<char>, seq<char>, seq<char>, bool) -> Option<seq<char>>)
      returns (written: Option<seq<char>>)
      modifies this
      ensures find == [] ==> written == None && currentCursorPosition == old(currentCursorPosition)
      ensures find != [] && !opts.useRegex ==>
        written == Some(LiteralReplaceAll(scope, find, rep, opts)) && currentCursorPosition == 0
      ensures find != [] && opts.useRegex ==>
        && written == substitute(RegexPattern(Fold(find, opts.matchCase), opts.matchWholeWord), rep,
                                 Fold(scope, opts.matchCase), !opts.matchCase)
        && currentCursorPosition == if written.None? then old(currentCursorPosition) else 0
    {
      if find == [] {
        return None;
      }
      var text, pat := Fold(scope, opts.matchCase), Fold(find, opts.matchCase);
      var newText: seq<char>;
      if opts.useRegex {
        var r := substitute(RegexPattern(pat, opts.matchWholeWord), rep, text, !opts.matchCase);
        if r.None? {
          return None;
        }
        newText := r.value;
      } else if opts.matchWholeWord {
        newText := ReplaceWholeWords(text, pat, rep);
      } else {
        newText := Replace(text, pat, rep);
      }
      written := Some(newText);
      currentCursorPosition := 0;
    }
  }
}
