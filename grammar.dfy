/**
 * The bookkeeping of the Spell & Grammar Check dialog: the list of issues
 * the checker reported, the index of the issue on show, the first-check
 * flag, and the text edits that Replace and Replace All make.
 * The checker itself (LanguageTool) is a function given to the session.
 */
module Grammar {
  import opened Wrappers
  import opened TextOps

  /** One issue reported by the checker, with the fields the dialog reads. */
  datatype Issue = Issue(matchedText: seq<char>, offset: nat, errorLength: nat,
                         ruleId: seq<char>, replacements: seq<seq<char>>)

  /** The (offset, errorLength) pair Replace All collects for each issue. */
  datatype Span = Span(offset: nat, length: nat)

  /** What the dialog shows the user. */
  datatype Notice =
    | ShowingIssue(issue: Issue)   // matched text in the label, replacements in the list
    | NoErrorsFound                // "No Errors" box; the dialog closes
    | EndOfDocument                // "Reached End of Document" box; the dialog closes

  /** text[:offset] + replacement + text[offset + length:], with Python's clamped slices. */
  function Splice(text: seq<char>, offset: nat, length: nat, replacement: seq<char>): seq<char> {
    Take(text, offset) + replacement + Drop(text, offset + length)
  }

  /** An in-bounds splice keeps the text before and after the span and changes the length by the difference. */
  lemma SpliceShape(text: seq<char>, offset: nat, length: nat, replacement: seq<char>)
    requires offset + length <= |text|
    ensures var r := Splice(text, offset, length, replacement);
      && |r| == |text| - length + |replacement|
      && r[..offset] == text[..offset]
      && r[offset..offset + |replacement|] == replacement
      && r[offset + |replacement|..] == text[offset + length..]
  {
  }

  /** Splicing the original characters back over the replacement restores the text. */
  lemma SpliceUndo(text: seq<char>, offset: nat, length: nat, replacement: seq<char>)
    requires offset + length <= |text|
    ensures Splice(Splice(text, offset, length, replacement), offset, |replacement|, text[offset..offset + length]) == text
  {
    var r := Splice(text, offset, length, replacement);
    var before, original, after := text[..offset], text[offset..offset + length], text[offset + length..];
    calc {
      Splice(r, offset, |replacement|, original);
      { SpliceInBounds(text, offset, length, replacement);
        SpliceInBounds(r, offset, |replacement|, original); }
      r[..offset] + (original + r[offset + |replacement|..]);
      { ResplicePieces(before, replacement, after, original); }
      before + (original + after);
      { SliceAround(text, offset, length); }
      text;
    }
  }

  /** A text is its part before the span, the span, and its part after. */
  lemma SliceAround(text: seq<char>, offset: nat, length: nat)
    requires offset + length <= |text|
    ensures text == text[..offset] + (text[offset..offset + length] + text[offset + length..])
  {
    assert text[offset..] == text[offset..offset + length] + text[offset + length..];
    assert text == text[..offset] + text[offset..];
  }

  /** Splicing over the middle piece of a + (b + c) swaps that piece for d. */
  lemma ResplicePieces(a: seq<char>, b: seq<char>, c: seq<char>, d: seq<char>)
    ensures var x := a + (b + c); x[..|a|] + (d + x[|a| + |b|..]) == a + (d + c)
  {
    var x := a + (b + c);
    assert x[..|a|] == a;
    assert x[|a| + |b|..] == c;
  }

  /** The Ignore All filter: the issues whose rule differs from `rule`, in list order. */
  function WithoutRule(errors: seq<Issue>, rule: seq<char>): (r: seq<Issue>)
    ensures |r| <= |errors|
  {
    if errors == [] then []
    else if errors[0].ruleId != rule then [errors[0]] + WithoutRule(errors[1..], rule)
    else WithoutRule(errors[1..], rule)
  }

  /** An issue survives Ignore All exactly when it was in the list and has another rule. */
  lemma {:induction false} WithoutRuleMembers(errors: seq<Issue>, rule: seq<char>, e: Issue)
    ensures e in WithoutRule(errors, rule) <==> e in errors && e.ruleId != rule
  {
    if errors != [] {
      WithoutRuleMembers(errors[1..], rule, e);
      assert e in errors <==> e == errors[0] || e in errors[1..];
    }
  }

  /** The filter works piecewise, so survivors keep their relative order. */
  lemma {:induction false} WithoutRuleAppend(a: seq<Issue>, b: seq<Issue>, rule: seq<char>)
    ensures WithoutRule(a + b, rule) == WithoutRule(a, rule) + WithoutRule(b, rule)
  {
    if a != [] {
      assert (a + b)[1..] == a[1..] + b;
      WithoutRuleAppend(a[1..], b, rule);
    } else {
      assert a + b == b;
    }
  }

  /** The spans Replace All collects: those of the issues with rule `rule`, in list order. */
  function SameRuleSpans(errors: seq<Issue>, rule: seq<char>): (r: seq<Span>)
    ensures |r| <= |errors|
  {
    if errors == [] then []
    else if errors[0].ruleId == rule then [Span(errors[0].offset, errors[0].errorLength)] + SameRuleSpans(errors[1..], rule)
    else SameRuleSpans(errors[1..], rule)
  }

  /**
   * Replace All and Ignore All split the list by the same rule: every issue
   * either contributes a span or survives the filter, never both.
   */
  lemma {:induction false} SpansAndSurvivorsPartition(errors: seq<Issue>, rule: seq<char>)
    ensures |SameRuleSpans(errors, rule)| + |WithoutRule(errors, rule)| == |errors|
  {
    if errors != [] {
      SpansAndSurvivorsPartition(errors[1..], rule);
    }
  }

  /** A span is collected exactly when some issue of that rule has it. */
  lemma {:induction false} SameRuleSpansMembers(errors: seq<Issue>, rule: seq<char>, s: Span)
    ensures s in SameRuleSpans(errors, rule) <==>
      exists e :: e in errors && e.ruleId == rule && Span(e.offset, e.errorLength) == s
  {
    if errors != [] {
      SameRuleSpansMembers(errors[1..], rule, s);
      assert forall e :: e in errors <==> e == errors[0] || e in errors[1..];
    }
  }

  /** The issue on show has the rule being ignored, so Ignore All removes at least it. */
  lemma IgnoreAllShrinks(errors: seq<Issue>, i: nat)
    requires i < |errors|
    ensures |WithoutRule(errors, errors[i].ruleId)| < |errors|
  {
    SpansAndSurvivorsPartition(errors, errors[i].ruleId);
    SameRuleSpansMembers(errors, errors[i].ruleId, Span(errors[i].offset, errors[i].errorLength));
  }

  /** Replace All's edit: the collected spans spliced last one first. */
  function SplicedBackward(text: seq<char>, spans: seq<Span>, replacement: seq<char>): seq<char>
    decreases |spans|
  {
    if spans == [] then text
    else
      var last := spans[|spans| - 1];
      SplicedBackward(Splice(text, last.offset, last.length, replacement), spans[..|spans| - 1], replacement)
  }

  /** The reversed loop of Replace All, proved equal to SplicedBackward. */
  method SpliceInReverse(text: seq<char>, spans: seq<Span>, replacement: seq<char>) returns (t: seq<char>)
    ensures t == SplicedBackward(text, spans, replacement)
  {
    t := text;
    var i := |spans|;
    assert spans[..i] == spans;
    while i > 0
      invariant 0 <= i <= |spans|
      invariant SplicedBackward(t, spans[..i], replacement) == SplicedBackward(text, spans, replacement)
    {
      assert spans[..i][..i - 1] == spans[..i - 1];
      i := i - 1;
      t := Splice(t, spans[i].offset, spans[i].length, replacement);
    }
  }

  /** The first index past the span. */
  function End(s: Span): nat {
    s.offset + s.length
  }

  /** Spans in ascending order, not overlapping, starting at or after `from` and ending by `n`. */
  predicate Ordered(spans: seq<Span>, from: nat, n: nat)
    decreases |spans|
  {
    if spans == [] then from <= n
    else from <= spans[0].offset && End(spans[0]) <= n && Ordered(spans[1..], End(spans[0]), n)
  }

  /**
   * Reference reading of Replace All on ordered spans: the text between the
   * spans kept as it is, each span replaced, scanning from `from`.
   */
  function Rebuilt(text: seq<char>, spans: seq<Span>, replacement: seq<char>, from: nat): seq<char>
    requires Ordered(spans, from, |text|)
    decreases |spans|
  {
    if spans == [] then text[from..]
    else text[from..spans[0].offset] + replacement + Rebuilt(text, spans[1..], replacement, End(spans[0]))
  }

  /** Each span is replaced by `replacement` and nothing else changes length. */
  function SumLengths(spans: seq<Span>): nat {
    if spans == [] then 0 else spans[0].length + SumLengths(spans[1..])
  }

  /** Length after Replace All on ordered spans: L - (sum of span lengths) + k * |replacement|. */
  lemma {:induction false} RebuiltLength(text: seq<char>, spans: seq<Span>, replacement: seq<char>, from: nat)
    requires Ordered(spans, from, |text|)
    ensures |Rebuilt(text, spans, replacement, from)| == |text| - from - SumLengths(spans) + |spans| * |replacement|
    decreases |spans|
  {
    if spans != [] {
      RebuiltLength(text, spans[1..], replacement, End(spans[0]));
      assert |spans| * |replacement| == (|spans| - 1) * |replacement| + |replacement|;
    }
  }

  /** The spans before the last one end before the last one starts. */
  lemma {:induction false} OrderedInit(spans: seq<Span>, from: nat, n: nat)
    requires |spans| > 0 && Ordered(spans, from, n)
    ensures Ordered(spans[..|spans| - 1], from, spans[|spans| - 1].offset)
    ensures End(spans[|spans| - 1]) <= n
    decreases |spans|
  {
    var tail := spans[1..];
    if |tail| > 0 {
      OrderedInit(tail, End(spans[0]), n);
      assert tail[|tail| - 1] == spans[|spans| - 1];
      assert spans[..|spans| - 1][1..] == tail[..|tail| - 1];
    }
  }

  /** One step of SplicedBackward on an in-bounds last span, written with plain slices. */
  lemma SplicedBackwardStep(text: seq<char>, spans: seq<Span>, replacement: seq<char>)
    requires spans != [] && End(spans[|spans| - 1]) <= |text|
    ensures var last := spans[|spans| - 1];
      SplicedBackward(text, spans, replacement) ==
        SplicedBackward(text[..last.offset] + (replacement + text[End(last)..]), spans[..|spans| - 1], replacement)
  {
    var last := spans[|spans| - 1];
    SpliceInBounds(text, last.offset, last.length, replacement);
  }

  /** A splice inside `x` commutes with appending `y` after it. */
  lemma AppendPieces(x: seq<char>, y: seq<char>, o: nat, e: nat, replacement: seq<char>)
    requires o <= e <= |x|
    ensures (x + y)[..o] + (replacement + (x + y)[e..]) == (x[..o] + (replacement + x[e..])) + y
  {
    assert (x + y)[..o] == x[..o];
    assert (x + y)[e..] == x[e..] + y;
  }

  /** Splicing spans that lie inside `x` leaves a suffix `y` alone. */
  lemma {:induction false} SplicedBackwardAppend(x: seq<char>, y: seq<char>, spans: seq<Span>, replacement: seq<char>)
    requires Ordered(spans, 0, |x|)
    ensures SplicedBackward(x + y, spans, replacement) == SplicedBackward(x, spans, replacement) + y
    decreases |spans|
  {
    if spans != [] {
      var last := spans[|spans| - 1];
      var init := spans[..|spans| - 1];
      OrderedInit(spans, 0, |x|);
      var x' := x[..last.offset] + (replacement + x[End(last)..]);
      OrderedWiden(init, 0, last.offset, |x'|);
      SplicedBackwardAppend(x', y, init, replacement);
      calc {
        SplicedBackward(x + y, spans, replacement);
        { SplicedBackwardStep(x + y, spans, replacement);
          AppendPieces(x, y, last.offset, End(last), replacement); }
        SplicedBackward(x' + y, init, replacement);
        SplicedBackward(x', init, replacement) + y;
        { SplicedBackwardStep(x, spans, replacement); }
        SplicedBackward(x, spans, replacement) + y;
      }
    }
  }

  /** Ordered spans that end by `n` also end by any larger bound. */
  lemma {:induction false} OrderedWiden(spans: seq<Span>, from: nat, n: nat, m: nat)
    requires Ordered(spans, from, n) && n <= m
    ensures Ordered(spans, from, m)
    decreases |spans|
  {
    if spans != [] {
      OrderedWiden(spans[1..], End(spans[0]), n, m);
    }
  }

  /** Rebuilding with one more span at the end: the text before it is rebuilt alone. */
  lemma {:induction false} RebuiltSnoc(text: seq<char>, spans: seq<Span>, replacement: seq<char>, from: nat)
    requires |spans| > 0 && Ordered(spans, from, |text|)
    ensures var last := spans[|spans| - 1];
      End(last) <= |text| && Ordered(spans[..|spans| - 1], from, last.offset) &&
      Rebuilt(text, spans, replacement, from) ==
        Rebuilt(text[..last.offset], spans[..|spans| - 1], replacement, from) + replacement + text[End(last)..]
    decreases |spans|
  {
    var last := spans[|spans| - 1];
    OrderedInit(spans, from, |text|);
    if |spans| > 1 {
      var tail := spans[1..];
      assert tail[|tail| - 1] == last;
      RebuiltSnoc(text, tail, replacement, End(spans[0]));
      RebuiltSnocStep(text, spans, replacement, from);
    } else {
      assert text[..last.offset][from..] == text[from..last.offset];
    }
  }

  /** The inductive step of RebuiltSnoc, given the claim for the spans after the first. */
  lemma RebuiltSnocStep(text: seq<char>, spans: seq<Span>, replacement: seq<char>, from: nat)
    requires |spans| > 1 && Ordered(spans, from, |text|)
    requires var last := spans[|spans| - 1];
      && End(last) <= |text|
      && Ordered(spans[..|spans| - 1], from, last.offset)
      && Ordered(spans[1..][..|spans| - 2], End(spans[0]), last.offset)
      && Rebuilt(text, spans[1..], replacement, End(spans[0])) ==
           Rebuilt(text[..last.offset], spans[1..][..|spans| - 2], replacement, End(spans[0])) + replacement + text[End(last)..]
    ensures var last := spans[|spans| - 1];
      Rebuilt(text, spans, replacement, from) ==
        Rebuilt(text[..last.offset], spans[..|spans| - 1], replacement, from) + replacement + text[End(last)..]
  {
    var last := spans[|spans| - 1];
    var init := spans[..|spans| - 1];
    var head := text[..last.offset];
    var rest := spans[1..][..|spans| - 2];
    InitPieces(text, spans, from);
    calc {
      Rebuilt(text, spans, replacement, from);
      text[from..spans[0].offset] + replacement + Rebuilt(text, spans[1..], replacement, End(spans[0]));
      text[from..spans[0].offset] + replacement + (Rebuilt(head, rest, replacement, End(spans[0])) + replacement + text[End(last)..]);
      { Regroup(text[from..spans[0].offset], replacement, Rebuilt(head, rest, replacement, End(spans[0])), text[End(last)..]); }
      (head[from..init[0].offset] + replacement + Rebuilt(head, init[1..], replacement, End(init[0]))) + replacement + text[End(last)..];
      Rebuilt(head, init, replacement, from) + replacement + text[End(last)..];
    }
  }

  /** The slices RebuiltSnocStep needs: dropping the last span and the first commute, and the gap before the first span is inside the cut text. */
  lemma InitPieces(text: seq<char>, spans: seq<Span>, from: nat)
    requires |spans| > 1 && from <= spans[0].offset && spans[0].offset <= spans[|spans| - 1].offset <= |text|
    ensures spans[..|spans| - 1][1..] == spans[1..][..|spans| - 2]
    ensures text[..spans[|spans| - 1].offset][from..spans[0].offset] == text[from..spans[0].offset]
  {
  }

  /** Associativity of the pieces RebuiltSnocStep rearranges. */
  lemma Regroup(a: seq<char>, r: seq<char>, b: seq<char>, t: seq<char>)
    ensures a + r + (b + r + t) == (a + r + b) + r + t
  {
  }

  /**
   * Replace All on in-bounds, non-overlapping spans in ascending order: the
   * reversed splicing yields the text between the spans unchanged, with each
   * span replaced.
   */
  lemma {:induction false} ReplaceAllKeepsOutside(text: seq<char>, spans: seq<Span>, replacement: seq<char>)
    requires Ordered(spans, 0, |text|)
    ensures SplicedBackward(text, spans, replacement) == Rebuilt(text, spans, replacement, 0)
    decreases |spans|
  {
    if spans == [] {
      assert text[0..] == text;
    } else {
      var last := spans[|spans| - 1];
      OrderedInit(spans, 0, |text|);
      ReplaceAllKeepsOutside(text[..last.offset], spans[..|spans| - 1], replacement);
      KeepsOutsideStep(text, spans, replacement);
    }
  }

  /** The step of ReplaceAllKeepsOutside, given the claim for the text before the last span. */
  lemma KeepsOutsideStep(text: seq<char>, spans: seq<Span>, replacement: seq<char>)
    requires |spans| > 0 && Ordered(spans, 0, |text|)
    requires var last := spans[|spans| - 1];
      End(last) <= |text| && Ordered(spans[..|spans| - 1], 0, last.offset) &&
      SplicedBackward(text[..last.offset], spans[..|spans| - 1], replacement) ==
        Rebuilt(text[..last.offset], spans[..|spans| - 1], replacement, 0)
    ensures SplicedBackward(text, spans, replacement) == Rebuilt(text, spans, replacement, 0)
  {
    var last := spans[|spans| - 1];
    var init := spans[..|spans| - 1];
    var head, tail := text[..last.offset], replacement + text[End(last)..];
    calc {
      SplicedBackward(text, spans, replacement);
      { SplicedBackwardStep(text, spans, replacement); }
      SplicedBackward(head + tail, init, replacement);
      { SplicedBackwardAppend(head, tail, init, replacement); }
      SplicedBackward(head, init, replacement) + tail;
      Rebuilt(head, init, replacement, 0) + tail;
      { RebuiltSnoc(text, spans, replacement, 0); }
      Rebuilt(text, spans, replacement, 0);
    }
  }

  lemma SpliceInBounds(text: seq<char>, offset: nat, length: nat, replacement: seq<char>)
    requires offset + length <= |text|
    ensures Splice(text, offset, length, replacement) == text[..offset] + (replacement + text[offset + length..])
  {
  }

  /** Length after Replace All on ordered spans. */
  lemma ReplaceAllLength(text: seq<char>, spans: seq<Span>, replacement: seq<char>)
    requires Ordered(spans, 0, |text|)
    ensures |SplicedBackward(text, spans, replacement)| == |text| - SumLengths(spans) + |spans| * |replacement|
  {
    ReplaceAllKeepsOutside(text, spans, replacement);
    RebuiltLength(text, spans, replacement, 0);
  }

  /** The box load_errors shows: "No Errors", only on the first check of an empty list. */
  function LoadNotices(errors: seq<Issue>, isFirstCheck: bool): seq<Notice> {
    if |errors| < 1 && isFirstCheck then [NoErrorsFound] else []
  }

  /** What show_next_error shows: the issue at `index`, else the end box unless still on the first check. */
  function ShowNotices(errors: seq<Issue>, index: nat, isFirstCheck: bool): seq<Notice> {
    if index < |errors| then [ShowingIssue(errors[index])]
    else if !isFirstCheck then [EndOfDocument]
    else []
  }

  /** A fresh check followed by showing the first issue, as Start, Replace and Replace All do. */
  function CheckNotices(errors: seq<Issue>, isFirstCheck: bool): seq<Notice> {
    LoadNotices(errors, isFirstCheck) + ShowNotices(errors, 0, isFirstCheck)
  }

  /**
   * Every check ends in exactly one thing shown: the first issue when there
   * is one; otherwise "No Errors" on the first check and "Reached End of
   * Document" on a later one.
   */
  lemma CheckShowsOneThing(errors: seq<Issue>, isFirstCheck: bool)
    ensures var shown := CheckNotices(errors, isFirstCheck);
      && |shown| == 1
      && (errors != [] ==> shown[0] == ShowingIssue(errors[0]))
      && (shown[0].ShowingIssue? <==> errors != [])
      && (shown[0] == NoErrorsFound <==> errors == [] && isFirstCheck)
      && (shown[0] == EndOfDocument <==> errors == [] && !isFirstCheck)
  {
  }

  /** The Spell & Grammar Check dialog's state. */
  class GrammarSession {
    /** The checker (LanguageTool's check). */
    const check: seq<char> -> seq<Issue>
    /** The editor text the dialog works on. */
    var text: seq<char>
    var errors: seq<Issue>
    var currentErrorIndex: nat
    var isFirstCheck: bool
    /** Replace, Replace All, Ignore and Ignore All enabled. */
    var buttonsEnabled: bool
    var closed: bool
    /** Everything shown so far, oldest first. */
    var notices: seq<Notice>

    /** The first-check flag is up exactly until an issue has been shown. */
    ghost predicate Valid()
      reads this
    {
      isFirstCheck <==> forall k :: 0 <= k < |notices| ==> !notices[k].ShowingIssue?
    }

    constructor (check: seq<char> -> seq<Issue>, text: seq<char>)
      ensures Valid()
      ensures this.check == check && this.text == text
      ensures errors == [] && currentErrorIndex == 0 && isFirstCheck
      ensures !buttonsEnabled && !closed && notices == []
    {
      this.check := check;
      this.text := text;
      errors := [];
      currentErrorIndex := 0;
      isFirstCheck := true;
      buttonsEnabled := false;
      closed := false;
      notices := [];
    }

    /** Runs the checker on the text; an empty first result shows "No Errors" and closes the dialog. */
    method LoadErrors()
      requires Valid()
      modifies this
      ensures Valid()
      ensures errors == check(text) && notices == old(notices) + LoadNotices(errors, isFirstCheck)
      ensures closed == (old(closed) || (|errors| < 1 && isFirstCheck))
      ensures buttonsEnabled == (old(buttonsEnabled) && !(|errors| < 1 && isFirstCheck))
      ensures text == old(text) && currentErrorIndex == old(currentErrorIndex) && isFirstCheck == old(isFirstCheck)
    {
      errors := check(text);
      if |errors| < 1 && isFirstCheck {
        notices := notices + [NoErrorsFound];
        closed := true;
        buttonsEnabled := false;
      }
    }

    /** Shows the issue at the index, or "Reached End of Document" and closes unless on the first check. */
    method ShowNextError()
      requires Valid()
      modifies this
      ensures Valid()
      ensures notices == old(notices) + ShowNotices(errors, currentErrorIndex, old(isFirstCheck))
      ensures isFirstCheck == (old(isFirstCheck) && currentErrorIndex >= |errors|)
      ensures closed == (old(closed) || (currentErrorIndex >= |errors| && !old(isFirstCheck)))
      ensures text == old(text) && errors == old(errors) && currentErrorIndex == old(currentErrorIndex)
      ensures buttonsEnabled == old(buttonsEnabled)
    {
      if currentErrorIndex < |errors| {
        isFirstCheck := false;
        var n := |notices|;
        notices := notices + [ShowingIssue(errors[currentErrorIndex])];
        assert notices[n].ShowingIssue?;
      } else if !isFirstCheck {
        var k :| 0 <= k < |notices| && notices[k].ShowingIssue?;
        notices := notices + [EndOfDocument];
        assert notices[k].ShowingIssue?;
        closed := true;
      }
    }

    /** The checker is ready: enable the buttons, check, show the first issue. */
    method StartCheck()
      requires Valid()
      modifies this
      ensures Valid()
      ensures errors == check(text) && text == old(text) && currentErrorIndex == old(currentErrorIndex)
      ensures notices == old(notices) + LoadNotices(errors, old(isFirstCheck))
                                      + ShowNotices(errors, currentErrorIndex, old(isFirstCheck))
      ensures buttonsEnabled == !(|errors| < 1 && old(isFirstCheck))
      ensures isFirstCheck == (old(isFirstCheck) && currentErrorIndex >= |errors|)
      ensures closed == (old(closed) || (|errors| < 1 && old(isFirstCheck))
                                     || (currentErrorIndex >= |errors| && !old(isFirstCheck)))
    {
      buttonsEnabled := true;
      LoadErrors();
      ShowNextError();
    }

    /** Ignore: step to the next issue. */
    method Ignore()
      requires Valid()
      modifies this
      ensures Valid()
      ensures currentErrorIndex == old(currentErrorIndex) + 1 && errors == old(errors) && text == old(text)
      ensures notices == old(notices) + ShowNotices(errors, currentErrorIndex, old(isFirstCheck))
      ensures isFirstCheck == (old(isFirstCheck) && currentErrorIndex >= |errors|)
      ensures closed == (old(closed) || (currentErrorIndex >= |errors| && !old(isFirstCheck)))
      ensures buttonsEnabled == old(buttonsEnabled)
    {
      currentErrorIndex := currentErrorIndex + 1;
      ShowNextError();
    }

    /** Ignore All: drop every issue with the current issue's rule; the index stays. */
    method IgnoreAll()
      requires Valid() && currentErrorIndex < |errors|
      modifies this
      ensures Valid()
      ensures errors == WithoutRule(old(errors), old(errors)[old(currentErrorIndex)].ruleId)
      ensures currentErrorIndex == old(currentErrorIndex) && text == old(text)
      ensures notices == old(notices) + ShowNotices(errors, currentErrorIndex, old(isFirstCheck))
      ensures isFirstCheck == (old(isFirstCheck) && currentErrorIndex >= |errors|)
      ensures closed == (old(closed) || (currentErrorIndex >= |errors| && !old(isFirstCheck)))
      ensures buttonsEnabled == old(buttonsEnabled)
    {
      var rule := errors[currentErrorIndex].ruleId;
      errors := WithoutRule(errors, rule);
      ShowNextError();
    }

    /** Rechecks after an edit and shows the first issue, as apply_replacement and replace_all end. */
    method Recheck()
      requires Valid()
      modifies this
      ensures Valid()
      ensures errors == check(text) && text == old(text) && currentErrorIndex == 0
      ensures notices == old(notices) + CheckNotices(errors, old(isFirstCheck))
      ensures isFirstCheck == (old(isFirstCheck) && errors == [])
      ensures closed == (old(closed) || errors == [])
      ensures buttonsEnabled == (old(buttonsEnabled) && !(errors == [] && old(isFirstCheck)))
    {
      LoadErrors();
      currentErrorIndex := 0;
      ShowNextError();
    }

    /**
     * Replace: with a suggestion selected, splice it over the current issue's
     * span, recheck, and show the first issue.
     */
    method Replace(selected: Option<seq<char>>)
      requires Valid() && (selected.Some? ==> currentErrorIndex < |errors|)
      modifies this
      ensures Valid()
      ensures selected.None? ==> unchanged(this)
      ensures selected.Some? ==>
        var e := old(errors)[old(currentErrorIndex)];
        && text == Splice(old(text), e.offset, e.errorLength, selected.value)
        && errors == check(text) && currentErrorIndex == 0
        && notices == old(notices) + CheckNotices(errors, old(isFirstCheck))
        && isFirstCheck == (old(isFirstCheck) && errors == [])
        && closed == (old(closed) || errors == [])
        && buttonsEnabled == (old(buttonsEnabled) && !(errors == [] && old(isFirstCheck)))
    {
      if selected.Some? {
        var e := errors[currentErrorIndex];
        text := Splice(text, e.offset, e.errorLength, selected.value);
        Recheck();
      }
    }

    /**
     * Replace All: with a suggestion selected, splice it over the span of every
     * issue with the current issue's rule, last one first; then recheck.
     */
    method ReplaceAll(selected: Option<seq<char>>)
      requires Valid() && (selected.Some? ==> currentErrorIndex < |errors|)
      modifies this
      ensures Valid()
      ensures selected.None? ==> unchanged(this)
      ensures selected.Some? ==>
        var spans := SameRuleSpans(old(errors), old(errors)[old(currentErrorIndex)].ruleId);
        && text == SplicedBackward(old(text), spans, selected.value)
        && errors == check(text) && currentErrorIndex == 0
        && notices == old(notices) + CheckNotices(errors, old(isFirstCheck))
        && isFirstCheck == (old(isFirstCheck) && errors == [])
        && closed == (old(closed) || errors == [])
        && buttonsEnabled == (old(buttonsEnabled) && !(errors == [] && old(isFirstCheck)))
    {
      if selected.Some? {
        var spans := SameRuleSpans(errors, errors[currentErrorIndex].ruleId);
        text := SpliceInReverse(text, spans, selected.value);
        Recheck();
      }
    }
  }
}
